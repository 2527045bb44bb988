/** The keep-set computation of main.ts (lines 74-125): one pass over the
    newest-first entries that keeps an entry when it is tagged `latest`,
    when it was uploaded within the last hour, or while either of two
    per-path counters is below 2. The counters are named after semver and
    dev tags but look at neither, so together they keep the two newest
    entries of every path, whatever their tags.

    The source's keep-set holds entry objects; since both passes walk the
    same sorted array, an entry is identified here by its position in it. */
module Retention {
  import opened Entries
  import opened Ordering

  /** One hour in milliseconds: the window of "recently uploaded". */
  const HourMs: int := 60 * 60 * 1000
  /** How many entries of each path each counter admits. */
  const PerPathQuota: nat := 2

  /** The state of the pass: the positions kept so far and the two
      `Record<string, number>` counters. */
  datatype KeepState = KeepState(
    kept: set<nat>,
    semverCountByPath: map<string, nat>,
    devCountByPath: map<string, nat>)

  /** `countByPath[path] || 0`. */
  function CountOf(m: map<string, nat>, path: string): nat
  {
    if path in m then m[path] else 0
  }

  /** The body of the loop, for the entry `e` at position `i`. */
  function Visit(st: KeepState, e: Entry, i: nat, hourAgo: int): KeepState
  {
    var kept := if e.isLatest then st.kept + {i} else st.kept;
    var kept := if e.uploadedAt > hourAgo then kept + {i} else kept;
    var semverCount := CountOf(st.semverCountByPath, e.path);
    var devCount := CountOf(st.devCountByPath, e.path);
    var kept := if semverCount < PerPathQuota then kept + {i} else kept;
    var semverCounts :=
      if semverCount < PerPathQuota then st.semverCountByPath[e.path := semverCount + 1]
      else st.semverCountByPath;
    var kept := if devCount < PerPathQuota then kept + {i} else kept;
    var devCounts :=
      if devCount < PerPathQuota then st.devCountByPath[e.path := devCount + 1]
      else st.devCountByPath;
    KeepState(kept, semverCounts, devCounts)
  }

  /** The state after the loop has visited the first `k` entries. */
  function KeepLoop(s: seq<Entry>, hourAgo: int, k: nat): KeepState
    requires k <= |s|
  {
    if k == 0 then KeepState({}, map[], map[])
    else Visit(KeepLoop(s, hourAgo, k - 1), s[k - 1], k - 1, hourAgo)
  }

  /** The positions of `s` the pass keeps, with `now` the clock reading. */
  function KeepSet(s: seq<Entry>, now: int): set<nat>
  {
    KeepLoop(s, now - HourMs, |s|).kept
  }

  // ---------------------------------------------------------------------
  // Reference description of the keep-set

  /** Number of entries of `s` whose path is `path`. */
  function Occurrences(s: seq<Entry>, path: string): nat
  {
    if s == [] then 0
    else Occurrences(s[..|s| - 1], path) + (if s[|s| - 1].path == path then 1 else 0)
  }

  /** Number of entries before position `i` that share its path. */
  function PathRank(s: seq<Entry>, i: nat): nat
    requires i < |s|
  {
    Occurrences(s[..i], s[i].path)
  }

  /** Why the entry at position `i` survives: tagged `latest`, uploaded
      strictly after `hourAgo`, or one of the first two of its path. */
  predicate Retained(s: seq<Entry>, i: nat, hourAgo: int)
    requires i < |s|
  {
    s[i].isLatest || s[i].uploadedAt > hourAgo || PathRank(s, i) < PerPathQuota
  }

  function Min(a: nat, b: nat): nat
  {
    if a <= b then a else b
  }

  // ---------------------------------------------------------------------
  // Properties of the pass

  /** The loop invariant: both counters hold, per path, the number of
      visited entries of that path capped at 2, and the kept positions are
      exactly the visited ones that are retained. */
  lemma {:induction false} KeepLoopInvariant(s: seq<Entry>, hourAgo: int, k: nat)
    requires k <= |s|
    ensures forall p :: CountOf(KeepLoop(s, hourAgo, k).semverCountByPath, p) == Min(PerPathQuota, Occurrences(s[..k], p))
    ensures forall p :: CountOf(KeepLoop(s, hourAgo, k).devCountByPath, p) == Min(PerPathQuota, Occurrences(s[..k], p))
    ensures forall i: nat :: i in KeepLoop(s, hourAgo, k).kept <==> i < k && Retained(s, i, hourAgo)
  {
    if k > 0 {
      KeepLoopInvariant(s, hourAgo, k - 1);
      var e := s[k - 1];
      assert s[..k][..k - 1] == s[..k - 1];
      assert s[..k][k - 1] == e;
      forall p ensures Occurrences(s[..k], p) == Occurrences(s[..k - 1], p) + (if e.path == p then 1 else 0) {
      }
    }
  }

  /** An entry is kept exactly when it is tagged `latest`, was uploaded in
      the last hour, or fewer than two earlier entries share its path. */
  lemma KeepSetCharacterization(s: seq<Entry>, now: int)
    ensures forall i: nat :: i in KeepSet(s, now) <==> i < |s| && Retained(s, i, now - HourMs)
  {
    KeepLoopInvariant(s, now - HourMs, |s|);
  }

  /** Entries tagged `latest` and entries uploaded strictly after
      `now - 1h` are always kept. */
  lemma LatestAndRecentKept(s: seq<Entry>, now: int, i: nat)
    requires i < |s|
    requires s[i].isLatest || s[i].uploadedAt > now - HourMs
    ensures i in KeepSet(s, now)
  {
    KeepSetCharacterization(s, now);
  }

  /** The counters keep an entry iff fewer than two earlier entries share
      its path: among entries neither `latest` nor recent, those are
      exactly the kept ones. */
  lemma CounterRule(s: seq<Entry>, now: int, i: nat)
    requires i < |s|
    requires !s[i].isLatest && s[i].uploadedAt <= now - HourMs
    ensures i in KeepSet(s, now) <==> PathRank(s, i) < PerPathQuota
  {
    KeepSetCharacterization(s, now);
  }

  /** Neither counter ever exceeds 2, and the two counters always agree. */
  lemma {:induction false} CountersBounded(s: seq<Entry>, hourAgo: int, k: nat)
    requires k <= |s|
    ensures forall p :: CountOf(KeepLoop(s, hourAgo, k).semverCountByPath, p) <= PerPathQuota
    ensures KeepLoop(s, hourAgo, k).semverCountByPath == KeepLoop(s, hourAgo, k).devCountByPath
  {
    KeepLoopInvariant(s, hourAgo, k);
    if k > 0 {
      CountersBounded(s, hourAgo, k - 1);
      VisitKeepsCountersEqual(KeepLoop(s, hourAgo, k - 1), s[k - 1], k - 1, hourAgo);
    }
  }

  lemma VisitKeepsCountersEqual(st: KeepState, e: Entry, i: nat, hourAgo: int)
    requires st.semverCountByPath == st.devCountByPath
    ensures Visit(st, e, i, hourAgo).semverCountByPath == Visit(st, e, i, hourAgo).devCountByPath
  {
  }

  /** A step adds at most the visited position and removes nothing. */
  lemma VisitOnlyAdds(st: KeepState, e: Entry, i: nat, hourAgo: int)
    ensures st.kept <= Visit(st, e, i, hourAgo).kept
    ensures Visit(st, e, i, hourAgo).kept - st.kept <= {i}
  {
  }

  /** The keep-set only grows during the pass. */
  lemma {:induction false} KeepGrows(s: seq<Entry>, hourAgo: int, j: nat, k: nat)
    requires j <= k <= |s|
    ensures KeepLoop(s, hourAgo, j).kept <= KeepLoop(s, hourAgo, k).kept
    decreases k - j
  {
    if j < k {
      KeepGrows(s, hourAgo, j, k - 1);
      VisitOnlyAdds(KeepLoop(s, hourAgo, k - 1), s[k - 1], k - 1, hourAgo);
    }
  }

  lemma VisitReadsPathTimeAndLatest(st: KeepState, e: Entry, e': Entry, i: nat, hourAgo: int)
    requires e.path == e'.path && e.uploadedAt == e'.uploadedAt && e.isLatest == e'.isLatest
    ensures Visit(st, e, i, hourAgo) == Visit(st, e', i, hourAgo)
  {
  }

  /** The keep-set depends on an entry's path, upload time and `latest`
      tag only: `hasVersion`, `isDev`, the name, the url and the other tags
      play no part. */
  lemma {:induction false} OnlyPathTimeAndLatestMatter(s: seq<Entry>, s': seq<Entry>, hourAgo: int, k: nat)
    requires |s| == |s'| && k <= |s|
    requires forall i :: 0 <= i < |s| ==>
      s[i].path == s'[i].path && s[i].uploadedAt == s'[i].uploadedAt && s[i].isLatest == s'[i].isLatest
    ensures KeepLoop(s, hourAgo, k) == KeepLoop(s', hourAgo, k)
  {
    if k > 0 {
      OnlyPathTimeAndLatestMatter(s, s', hourAgo, k - 1);
      var st := KeepLoop(s, hourAgo, k - 1);
      assert st == KeepLoop(s', hourAgo, k - 1);
      VisitReadsPathTimeAndLatest(st, s[k - 1], s'[k - 1], k - 1, hourAgo);
      calc {
        KeepLoop(s, hourAgo, k);
        Visit(st, s[k - 1], k - 1, hourAgo);
        Visit(st, s'[k - 1], k - 1, hourAgo);
        KeepLoop(s', hourAgo, k);
      }
    }
  }

  /** When no path has more than two entries, everything is kept. */
  lemma SmallPathsAllKept(s: seq<Entry>, now: int)
    requires forall i :: 0 <= i < |s| ==> Occurrences(s, s[i].path) <= PerPathQuota
    ensures forall i: nat :: i < |s| ==> i in KeepSet(s, now)
  {
    KeepSetCharacterization(s, now);
    forall i: nat | i < |s| ensures PathRank(s, i) < PerPathQuota {
      OccurrencesPrefix(s, i, s[i].path);
    }
  }

  /** Counting a path is additive over concatenation. */
  lemma {:induction false} OccurrencesConcat(a: seq<Entry>, b: seq<Entry>, path: string)
    ensures Occurrences(a + b, path) == Occurrences(a, path) + Occurrences(b, path)
    decreases |b|
  {
    if b == [] {
      assert a + b == a;
    } else {
      var init := b[..|b| - 1];
      assert (a + b)[..|a + b| - 1] == a + init;
      OccurrencesConcat(a, init, path);
    }
  }

  /** Taking the same entry out of two equal multisets leaves equal ones. */
  lemma RemoveOne(init: seq<Entry>, front: seq<Entry>, back: seq<Entry>, x: Entry)
    requires multiset(init + [x]) == multiset(front + [x] + back)
    ensures multiset(init) == multiset(front + back)
  {
    var a, b := multiset(init), multiset(front + back);
    assert a + multiset{x} == b + multiset{x};
    forall y ensures a[y] == b[y] {
      assert (a + multiset{x})[y] == (b + multiset{x})[y];
    }
  }

  /** Reordering entries does not change how often a path occurs; in
      particular the newest-first sort keeps every path's count. */
  lemma {:induction false} OccurrencesPerm(s: seq<Entry>, r: seq<Entry>, path: string)
    requires multiset(s) == multiset(r)
    ensures Occurrences(s, path) == Occurrences(r, path)
    decreases |s|
  {
    if s == [] {
      assert |r| == |multiset(r)| == 0;
    } else {
      var x := s[|s| - 1];
      var init := s[..|s| - 1];
      assert s == init + [x];
      assert x in multiset(r);
      var j :| 0 <= j < |r| && r[j] == x;
      var front, back := r[..j], r[j + 1..];
      assert r == front + [x] + back;
      RemoveOne(init, front, back, x);
      OccurrencesPerm(init, front + back, path);
      OccurrencesConcat(front, back, path);
      OccurrencesConcat(front + [x], back, path);
      assert (front + [x])[..|front + [x]| - 1] == front;
    }
  }

  /** The entry at position `i` and those before it with its path are
      counted in every prefix reaching past `i`. */
  lemma {:induction false} OccurrencesPrefix(s: seq<Entry>, i: nat, path: string)
    requires i < |s| && s[i].path == path
    ensures Occurrences(s[..i], path) < Occurrences(s, path)
    decreases |s|
  {
    if i < |s| - 1 {
      var init := s[..|s| - 1];
      assert init[..i] == s[..i];
      OccurrencesPrefix(init, i, path);
    } else {
      assert s[..|s| - 1] == s[..i];
    }
  }

  /** A path occurring in `s` has a first occurrence, with rank 0. */
  lemma {:induction false} FirstOfPath(s: seq<Entry>, path: string) returns (j: nat)
    requires Occurrences(s, path) >= 1
    ensures j < |s| && s[j].path == path && PathRank(s, j) == 0
  {
    var init := s[..|s| - 1];
    if Occurrences(init, path) >= 1 {
      j := FirstOfPath(init, path);
      assert init[..j] == s[..j];
    } else {
      j := |s| - 1;
      assert s[..j] == init;
    }
  }

  /** A path occurring at least twice in `s` has a first and a second
      occurrence, with ranks 0 and 1. */
  lemma {:induction false} FirstTwoOfPath(s: seq<Entry>, path: string) returns (j1: nat, j2: nat)
    requires Occurrences(s, path) >= 2
    ensures j1 < j2 < |s|
    ensures s[j1].path == path && s[j2].path == path
    ensures PathRank(s, j1) < PerPathQuota && PathRank(s, j2) < PerPathQuota
  {
    var init := s[..|s| - 1];
    if Occurrences(init, path) >= 2 {
      j1, j2 := FirstTwoOfPath(init, path);
      assert init[..j1] == s[..j1];
      assert init[..j2] == s[..j2];
    } else {
      j1 := FirstOfPath(init, path);
      assert init[..j1] == s[..j1];
      j2 := |s| - 1;
      assert s[..j2] == init;
    }
  }

  /** On newest-first entries, an entry that is dropped has two entries of
      its path before it, both kept and both uploaded no earlier than it:
      the two newest entries of every path survive. */
  lemma DroppedHasTwoNewer(s: seq<Entry>, now: int, i: nat)
    requires NewestFirst(s)
    requires i < |s| && i !in KeepSet(s, now)
    ensures exists j1, j2 ::
              && 0 <= j1 < j2 < i
              && s[j1].path == s[i].path && s[j2].path == s[i].path
              && j1 in KeepSet(s, now) && j2 in KeepSet(s, now)
              && s[j1].uploadedAt >= s[i].uploadedAt && s[j2].uploadedAt >= s[i].uploadedAt
  {
    KeepSetCharacterization(s, now);
    var prefix := s[..i];
    var j1, j2 := FirstTwoOfPath(prefix, s[i].path);
    assert prefix[..j1] == s[..j1];
    assert prefix[..j2] == s[..j2];
    assert Retained(s, j1, now - HourMs) && Retained(s, j2, now - HourMs);
  }
}
