/**
 The playlist model: the track record, the fixed catalog of four tracks and
 the first-match lookup by identifier that `Array.prototype.findIndex` performs
 on it (app/page.tsx).
 */
module Catalog {

  /** One playable item. Only `id` and `url` carry behaviour; the other fields are display text. */
  datatype Track = Track(id: int, title: string, description: string, duration: string, url: string)

  /** The catalog, in display order. It never changes after start-up. */
  const AudioTracks: seq<Track> := [
    Track(1, "清晨冥想 - 宁静的开始",
          "一段宁静的冥想音乐，帮助您开启美好的一天，让心灵在清晨的宁静中找到平衡与和谐。",
          "6:17", "/MP3/07. Jia Peng Fang - River.flac"),
    Track(2, "午后时光 - 轻松旋律",
          "轻松愉悦的旋律，适合午后小憩时聆听，让忙碌的午后时光变得更加惬意和放松。",
          "5:03", "/MP3/08. Missa Johnouchi - Marco Polo.flac"),
    Track(3, "夜晚思考 - 深度对话",
          "深沉的音乐氛围，引导您进入深度的思考状态，适合夜晚独处时的自我对话与反思。",
          "4:47", "/MP3/10. Jiang Xiao Qing - Waters Edge.flac"),
    Track(4, "周末放松 - 自由节奏",
          "自由随性的节奏，为您的周末时光增添轻松氛围，让身心在音乐中完全释放。",
          "4:40", "/MP3/11. Shao Rong - Wild Rose.flac")
  ]

  /** No two catalog entries share an identifier. */
  predicate UniqueIds(cat: seq<Track>) {
    forall i, j :: 0 <= i < j < |cat| ==> cat[i].id != cat[j].id
  }

  /** Some catalog entry carries identifier `id`. */
  predicate HasId(cat: seq<Track>, id: int) {
    exists i :: 0 <= i < |cat| && cat[i].id == id
  }

  /** `i` is the smallest catalog index whose entry carries identifier `id`. */
  predicate IsFirstMatch(cat: seq<Track>, id: int, i: int) {
    && 0 <= i < |cat|
    && cat[i].id == id
    && forall j :: 0 <= j < i ==> cat[j].id != id
  }

  /** The catalog is the four tracks with identifiers 1 to 4, in that order, and
      so has pairwise distinct identifiers. */
  lemma AudioTracksShape()
    ensures |AudioTracks| == 4
    ensures forall i :: 0 <= i < |AudioTracks| ==> AudioTracks[i].id == i + 1
    ensures UniqueIds(AudioTracks)
  {
  }

  /** The search `findIndex` performs, started at index `from`: the first index
      at or after `from` whose entry has identifier `id`, or -1 when there is none. */
  function FindIndexFrom(cat: seq<Track>, id: int, from: nat): (r: int)
    requires from <= |cat|
    ensures r == -1 || from <= r < |cat|
    ensures r == -1 <==> forall j :: from <= j < |cat| ==> cat[j].id != id
    ensures r != -1 ==> cat[r].id == id && forall j :: from <= j < r ==> cat[j].id != id
    decreases |cat| - from
  {
    if from == |cat| then -1
    else if cat[from].id == id then from
    else FindIndexFrom(cat, id, from + 1)
  }

  /** `cat.findIndex(track => track.id === id)`: -1 exactly when no entry has
      identifier `id`, and otherwise the first entry that has it. */
  function FindIndex(cat: seq<Track>, id: int): (r: int)
    ensures r == -1 <==> !HasId(cat, id)
    ensures r != -1 ==> IsFirstMatch(cat, id, r)
  {
    FindIndexFrom(cat, id, 0)
  }

  /** With distinct identifiers, looking up the identifier of entry `k` finds `k`. */
  lemma FindIndexOfEntry(cat: seq<Track>, k: int)
    requires UniqueIds(cat)
    requires 0 <= k < |cat|
    ensures FindIndex(cat, cat[k].id) == k
  {
    var r := FindIndex(cat, cat[k].id);
    assert r != -1 by {
      assert cat[k].id == cat[k].id;
    }
    if r < k {
      assert cat[r].id == cat[k].id;
    }
  }
}
