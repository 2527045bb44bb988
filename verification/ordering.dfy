/** The newest-first ordering of entries (main.ts line 72):
    `entries.sort((a, b) => b.uploadedAt - a.uploadedAt)`. JavaScript's
    `Array.prototype.sort` is stable, so entries with equal upload times keep
    their listing order; the model is a stable insertion sort. */
module Ordering {
  import opened Entries

  /** Upload times never increase along `s`. */
  predicate NewestFirst(s: seq<Entry>)
  {
    forall i, j :: 0 <= i < j < |s| ==> s[i].uploadedAt >= s[j].uploadedAt
  }

  /** The entries of `s` uploaded at time `t`, in their order in `s`. */
  function UploadedAt(s: seq<Entry>, t: int): seq<Entry>
  {
    if s == [] then []
    else (if s[0].uploadedAt == t then [s[0]] else []) + UploadedAt(s[1..], t)
  }

  /** Inserts `x` in front of the first entry that is not strictly newer. */
  function Insert(x: Entry, s: seq<Entry>): (r: seq<Entry>)
    requires NewestFirst(s)
    ensures |r| == |s| + 1
    ensures r[0] == x || (|s| > 0 && r[0] == s[0])
    ensures multiset(r) == multiset(s) + multiset{x}
    ensures NewestFirst(r)
  {
    if s == [] || s[0].uploadedAt <= x.uploadedAt then
      ConsNewestFirst(x, s);
      [x] + s
    else
      var tail := Insert(x, s[1..]);
      ConsNewestFirst(s[0], tail);
      assert s == [s[0]] + s[1..];
      [s[0]] + tail
  }

  /** Putting an entry no older than the head in front keeps the order. */
  lemma ConsNewestFirst(a: Entry, s: seq<Entry>)
    requires NewestFirst(s)
    requires s == [] || a.uploadedAt >= s[0].uploadedAt
    ensures NewestFirst([a] + s)
  {
  }

  /** The sorted sequence: newest first, a permutation of the input. */
  function SortNewestFirst(s: seq<Entry>): (r: seq<Entry>)
    ensures |r| == |s|
    ensures multiset(r) == multiset(s)
    ensures NewestFirst(r)
  {
    if s == [] then []
    else
      assert s == [s[0]] + s[1..];
      Insert(s[0], SortNewestFirst(s[1..]))
  }

  lemma UploadedAtCons(a: Entry, s: seq<Entry>, t: int)
    ensures UploadedAt([a] + s, t) == (if a.uploadedAt == t then [a] else []) + UploadedAt(s, t)
  {
  }

  lemma {:induction false} InsertStable(x: Entry, s: seq<Entry>, t: int)
    requires NewestFirst(s)
    ensures UploadedAt(Insert(x, s), t) == (if x.uploadedAt == t then [x] else []) + UploadedAt(s, t)
  {
    if s == [] || s[0].uploadedAt <= x.uploadedAt {
      UploadedAtCons(x, s, t);
    } else {
      var tail := Insert(x, s[1..]);
      InsertStable(x, s[1..], t);
      UploadedAtCons(s[0], tail, t);
      UploadedAtCons(s[0], s[1..], t);
      assert [s[0]] + s[1..] == s;
      if x.uploadedAt == t {
        // s[0] is strictly newer than x, so it is not uploaded at t
        assert UploadedAt(Insert(x, s), t) == [x] + UploadedAt(s[1..], t);
      }
    }
  }

  /** Stability: for every upload time, the entries sharing it appear in the
      sorted sequence in the same relative order as in the input. */
  lemma {:induction false} SortStable(s: seq<Entry>, t: int)
    ensures UploadedAt(SortNewestFirst(s), t) == UploadedAt(s, t)
  {
    if s != [] {
      SortStable(s[1..], t);
      InsertStable(s[0], SortNewestFirst(s[1..]), t);
    }
  }

  /** The sorted sequence holds exactly the input's entries. */
  lemma SortSameEntries(s: seq<Entry>)
    ensures forall e :: e in SortNewestFirst(s) <==> e in s
  {
    var r := SortNewestFirst(s);
    assert |multiset(r)| == |multiset(s)|;
    forall e ensures e in r <==> e in s {
      assert e in r <==> e in multiset(r);
      assert e in s <==> e in multiset(s);
    }
  }
}
