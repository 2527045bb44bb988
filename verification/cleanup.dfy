/** The deletion pass and the exit policy of main.ts (lines 62-65 and
    140-165), and the whole run from the registry listing to the exit code.

    The remote `deleteVersion` call is represented by its answers:
    `outcomes[j]` is true when the `j`-th delete request of the run
    succeeds and false when it throws. The clock reading `now` is a
    parameter. */
module Cleanup {
  import opened Wrappers
  import opened Entries
  import opened Ordering
  import opened Retention
  import opened VersionNames

  /** The positions among the first `n` that are not kept, in order: the
      entries the pass tries to delete. */
  function Attempted(n: nat, kept: set<nat>): (r: seq<nat>)
    ensures |r| <= n
    ensures forall k :: 0 <= k < |r| ==> r[k] < n
  {
    if n == 0 then []
    else Attempted(n - 1, kept) + (if n - 1 in kept then [] else [n - 1])
  }

  /** The delete requests for the entries at `positions`, in order. */
  function Requests(cfg: Config, entries: seq<Entry>, positions: seq<nat>): (r: seq<string>)
    requires forall k :: 0 <= k < |positions| ==> positions[k] < |entries|
    ensures |r| == |positions|
  {
    if positions == [] then []
    else [VersionNameFromUrl(cfg, entries[positions[0]].url)] + Requests(cfg, entries, positions[1..])
  }

  /** The `k`-th request names the `k`-th attempted entry by
      `getVersionNameFromUrl` of its url. */
  lemma {:induction false} RequestsNamed(cfg: Config, entries: seq<Entry>, positions: seq<nat>, k: nat)
    requires forall j :: 0 <= j < |positions| ==> positions[j] < |entries|
    requires k < |positions|
    ensures Requests(cfg, entries, positions)[k] == VersionNameFromUrl(cfg, entries[positions[k]].url)
  {
    if k > 0 {
      RequestsNamed(cfg, entries, positions[1..], k - 1);
    }
  }

  /** Number of successful answers in `bs`. */
  function CountTrue(bs: seq<bool>): nat
  {
    if bs == [] then 0
    else CountTrue(bs[..|bs| - 1]) + (if bs[|bs| - 1] then 1 else 0)
  }

  /** The process exit code: 1 when deletions were tried and none
      succeeded, 0 otherwise. */
  function ExitCode(triesCount: nat, successCount: nat): int
  {
    if triesCount > 0 && successCount == 0 then 1 else 0
  }

  /** Kept positions are never attempted; every other position is, once,
      in increasing order. */
  lemma {:induction false} AttemptedExactly(n: nat, kept: set<nat>)
    ensures forall i :: i in Attempted(n, kept) <==> 0 <= i < n && i !in kept
    ensures forall a, b :: 0 <= a < b < |Attempted(n, kept)| ==> Attempted(n, kept)[a] < Attempted(n, kept)[b]
  {
    if n > 0 {
      AttemptedExactly(n - 1, kept);
      var prev := Attempted(n - 1, kept);
      assert forall a :: 0 <= a < |prev| ==> prev[a] in prev;
    }
  }

  /** The kept positions among the first `n`. */
  function KeptBelow(n: nat, kept: set<nat>): set<nat>
  {
    set i: nat | i < n && i in kept
  }

  /** Every one of the first `n` positions is either kept or attempted:
      the number of tries is `n` minus the number of kept positions. */
  lemma {:induction false} AttemptedCount(n: nat, kept: set<nat>)
    ensures |Attempted(n, kept)| + |KeptBelow(n, kept)| == n
  {
    if n > 0 {
      AttemptedCount(n - 1, kept);
      if n - 1 in kept {
        assert KeptBelow(n, kept) == KeptBelow(n - 1, kept) + {n - 1};
      } else {
        assert KeptBelow(n, kept) == KeptBelow(n - 1, kept);
      }
    }
  }

  /** When every position is kept, nothing is attempted. */
  lemma {:induction false} AllKeptNothingAttempted(n: nat, kept: set<nat>)
    requires forall i: nat :: i < n ==> i in kept
    ensures Attempted(n, kept) == []
  {
    if n > 0 {
      AllKeptNothingAttempted(n - 1, kept);
    }
  }

  /** The deletion loop: skips kept entries, tries every other entry once,
      in order, and counts tries and successes. `attempted` lists the
      positions of the entries a delete request was sent for. */
  method DeleteAll(entries: seq<Entry>, kept: set<nat>, outcomes: seq<bool>)
    returns (triesCount: nat, successCount: nat, attempted: seq<nat>)
    requires |outcomes| >= |entries|
    ensures attempted == Attempted(|entries|, kept)
    ensures triesCount == |attempted|
    ensures successCount <= triesCount <= |entries|
    ensures successCount == CountTrue(outcomes[..triesCount])
  {
    triesCount, successCount, attempted := 0, 0, [];
    var i := 0;
    while i < |entries|
      invariant i <= |entries|
      invariant attempted == Attempted(i, kept)
      invariant triesCount == |attempted|
      invariant successCount == CountTrue(outcomes[..triesCount])
      invariant successCount <= triesCount
    {
      if i !in kept {
        var ok := outcomes[triesCount];
        attempted := attempted + [i];
        assert outcomes[..triesCount + 1] == outcomes[..triesCount] + [ok];
        triesCount := triesCount + 1;
        if ok {
          successCount := successCount + 1;
        }
      }
      i := i + 1;
    }
  }

  /** The whole run: normalise the listing, stop early when it is empty,
      sort newest first, compute the keep-set against `now - 1h`, delete
      the rest, and report the exit code with the counters and the
      requests sent. */
  method Run(cfg: Config, images: seq<Option<ImageRecord>>, isValidSemver: string -> bool,
             now: int, outcomes: seq<bool>)
    returns (exitCode: int, triesCount: nat, successCount: nat, requests: seq<string>)
    requires |outcomes| >= |images|
    ensures exitCode == 1 <==> triesCount > 0 && successCount == 0
    ensures exitCode == 0 || exitCode == 1
    ensures Normalise(images, isValidSemver) == [] ==> triesCount == 0 && requests == []
    ensures var sorted := SortNewestFirst(Normalise(images, isValidSemver));
            var attempted := Attempted(|sorted|, KeepSet(sorted, now));
            && triesCount == |attempted|
            && requests == Requests(cfg, sorted, attempted)
            && successCount == CountTrue(outcomes[..triesCount])
  {
    var entries := Normalise(images, isValidSemver);
    if |entries| == 0 {
      return 0, 0, 0, [];
    }
    var sorted := SortNewestFirst(entries);
    var kept := KeepSet(sorted, now);
    var attempted;
    triesCount, successCount, attempted := DeleteAll(sorted, kept, outcomes);
    requests := Requests(cfg, sorted, attempted);
    exitCode := ExitCode(triesCount, successCount);
  }

  /** An entry sequence in which no image path occurs more than twice is
      left untouched: no delete request, and exit code 0 whatever the
      success count. */
  lemma SmallListingUntouched(s: seq<Entry>, now: int)
    requires forall i :: 0 <= i < |s| ==> Occurrences(s, s[i].path) <= PerPathQuota
    ensures Attempted(|s|, KeepSet(s, now)) == []
    ensures forall sc: nat :: ExitCode(|Attempted(|s|, KeepSet(s, now))|, sc) == 0
  {
    SmallPathsAllKept(s, now);
    AllKeptNothingAttempted(|s|, KeepSet(s, now));
  }

  /** The same holds for the newest-first order of such entries, the order
      in which the run builds its keep-set and deletes: sorting keeps every
      path's count. */
  lemma SortedSmallListingUntouched(s: seq<Entry>, now: int)
    requires forall i :: 0 <= i < |s| ==> Occurrences(s, s[i].path) <= PerPathQuota
    ensures Attempted(|SortNewestFirst(s)|, KeepSet(SortNewestFirst(s), now)) == []
  {
    var sorted := SortNewestFirst(s);
    forall i | 0 <= i < |sorted|
      ensures Occurrences(sorted, sorted[i].path) <= PerPathQuota
    {
      assert sorted[i] in multiset(s);
      var j :| 0 <= j < |s| && s[j] == sorted[i];
      OccurrencesPerm(s, sorted, s[j].path);
    }
    SmallListingUntouched(sorted, now);
  }

  /** Every try failing makes the run fail; a single success among the
      tries makes it succeed. */
  lemma ExitPolicy(tries: nat, outcomes: seq<bool>)
    requires tries <= |outcomes|
    ensures (forall j :: 0 <= j < tries ==> !outcomes[j]) && tries > 0 ==> ExitCode(tries, CountTrue(outcomes[..tries])) == 1
    ensures (exists j :: 0 <= j < tries && outcomes[j]) ==> ExitCode(tries, CountTrue(outcomes[..tries])) == 0
  {
    CountTrueZero(outcomes[..tries]);
  }

  /** No successful answer is the same as a count of zero. */
  lemma {:induction false} CountTrueZero(bs: seq<bool>)
    ensures CountTrue(bs) == 0 <==> forall j :: 0 <= j < |bs| ==> !bs[j]
  {
    if bs != [] {
      var init := bs[..|bs| - 1];
      CountTrueZero(init);
      assert forall j :: 0 <= j < |init| ==> init[j] == bs[j];
    }
  }
}
