/** Character-level string helpers with the semantics of the JavaScript
    `String.prototype.split` (single-character separator) and
    `Array.prototype.join` used by the cleaner. */
module Strings {

  /** Number of occurrences of `c` in `s`. */
  function Count(s: string, c: char): nat
  {
    if s == [] then 0 else (if s[0] == c then 1 else 0) + Count(s[1..], c)
  }

  /** Position of the first `c` in `s`, or `|s|` when there is none. */
  function IndexOf(s: string, c: char): (i: nat)
    ensures i <= |s|
    ensures i < |s| <==> c in s
    ensures i < |s| ==> s[i] == c
    ensures c !in s[..i]
  {
    if s == [] then 0
    else if s[0] == c then 0
    else
      var j := IndexOf(s[1..], c);
      assert s[..j + 1] == [s[0]] + s[1..][..j];
      1 + j
  }

  /** The text before the first `c` (all of `s` when `c` does not occur). */
  function Before(s: string, c: char): (r: string)
    ensures c !in r
    ensures r <= s
    ensures c !in s ==> r == s
  {
    s[..IndexOf(s, c)]
  }

  /** The text after the first `c`. */
  function After(s: string, c: char): (r: string)
    requires c in s
    ensures s == Before(s, c) + [c] + r
  {
    var i := IndexOf(s, c);
    assert s == s[..i] + [s[i]] + s[i + 1..];
    s[i + 1..]
  }

  /** Splitting at the first occurrence of a character that the left part
      does not contain recovers both parts. */
  lemma FirstOccurrence(p: string, c: char, q: string)
    requires c !in p
    ensures Before(p + [c] + q, c) == p
    ensures After(p + [c] + q, c) == q
  {
    var s := p + [c] + q;
    var i := IndexOf(s, c);
    assert s[|p|] == c;
    assert s[..i] == p;
    assert s[i + 1..] == q;
  }

  /** `s.split(sep)`: the maximal separator-free pieces of `s`, in order. */
  function Split(s: string, sep: char): (parts: seq<string>)
    ensures |parts| == Count(s, sep) + 1
    ensures parts[0] == Before(s, sep)
    decreases |s|
  {
    if sep !in s then
      CountAbsent(s, sep);
      [s]
    else
      var rest := After(s, sep);
      CountConcat(Before(s, sep) + [sep], rest, sep);
      CountConcat(Before(s, sep), [sep], sep);
      CountAbsent(Before(s, sep), sep);
      [Before(s, sep)] + Split(rest, sep)
  }

  /** No piece of a split contains the separator. */
  lemma {:induction false} SplitPiecesSeparatorFree(s: string, sep: char)
    ensures forall k :: 0 <= k < |Split(s, sep)| ==> sep !in Split(s, sep)[k]
    decreases |s|
  {
    if sep in s {
      var rest := After(s, sep);
      SplitPiecesSeparatorFree(rest, sep);
      assert Split(s, sep) == [Before(s, sep)] + Split(rest, sep);
    }
  }

  /** `parts.join(sep)`. */
  function Join(parts: seq<string>, sep: string): string
  {
    if |parts| == 0 then ""
    else if |parts| == 1 then parts[0]
    else parts[0] + sep + Join(parts[1..], sep)
  }

  /** `s` with every `c` replaced by `r`. */
  function ReplaceChar(s: string, c: char, r: string): string
  {
    if s == [] then ""
    else (if s[0] == c then r else [s[0]]) + ReplaceChar(s[1..], c, r)
  }

  /** `xs.slice(n)`: empty when `xs` has fewer than `n` elements. */
  function Drop<T>(xs: seq<T>, n: nat): (r: seq<T>)
    ensures |r| == if n <= |xs| then |xs| - n else 0
    ensures forall k :: 0 <= k < |r| ==> r[k] == xs[n + k]
  {
    if n <= |xs| then xs[n..] else []
  }

  /** The text after the `n`-th `c`, or the empty string when `s` holds
      fewer than `n` of them. */
  function AfterNth(s: string, c: char, n: nat): string
    decreases n
  {
    if n == 0 then s
    else if c !in s then ""
    else AfterNth(After(s, c), c, n - 1)
  }

  lemma {:induction false} CountAbsent(s: string, c: char)
    requires c !in s
    ensures Count(s, c) == 0
  {
    if s != [] {
      assert c !in s[1..] by {
        forall k | 0 <= k < |s[1..]| ensures s[1..][k] != c {
          assert s[1..][k] == s[k + 1];
        }
      }
      CountAbsent(s[1..], c);
    }
  }

  lemma {:induction false} CountConcat(a: string, b: string, c: char)
    ensures Count(a + b, c) == Count(a, c) + Count(b, c)
  {
    if a != [] {
      assert (a + b)[1..] == a[1..] + b;
      CountConcat(a[1..], b, c);
    } else {
      assert a + b == b;
    }
  }

  /** Joining the pieces of a split with the separator gives back the
      original string. */
  lemma {:induction false} JoinSplit(s: string, sep: char)
    ensures Join(Split(s, sep), [sep]) == s
    decreases |s|
  {
    if sep in s {
      var rest := After(s, sep);
      JoinSplit(rest, sep);
      assert Split(s, sep) == [Before(s, sep)] + Split(rest, sep);
      assert Split(s, sep)[1..] == Split(rest, sep);
    }
  }

  /** Splitting a join of separator-free pieces gives back the pieces. */
  lemma {:induction false} SplitJoin(parts: seq<string>, sep: char)
    requires |parts| > 0
    requires forall k :: 0 <= k < |parts| ==> sep !in parts[k]
    ensures Split(Join(parts, [sep]), sep) == parts
  {
    if |parts| > 1 {
      var tail := parts[1..];
      var rest := Join(tail, [sep]);
      var s := parts[0] + [sep] + rest;
      assert Join(parts, [sep]) == s;
      FirstOccurrence(parts[0], sep, rest);
      assert sep in s by { assert s[|parts[0]|] == sep; }
      SplitJoin(tail, sep);
      calc {
        Split(s, sep);
        [Before(s, sep)] + Split(After(s, sep), sep);
        [parts[0]] + Split(rest, sep);
        [parts[0]] + tail;
        parts;
      }
    }
  }

  lemma {:induction false} ReplaceAbsent(s: string, c: char, r: string)
    requires c !in s
    ensures ReplaceChar(s, c, r) == s
  {
    if s != [] {
      assert c !in s[1..] by {
        forall k | 0 <= k < |s[1..]| ensures s[1..][k] != c {
          assert s[1..][k] == s[k + 1];
        }
      }
      ReplaceAbsent(s[1..], c, r);
      assert s == [s[0]] + s[1..];
    }
  }

  lemma {:induction false} ReplaceConcat(a: string, b: string, c: char, r: string)
    ensures ReplaceChar(a + b, c, r) == ReplaceChar(a, c, r) + ReplaceChar(b, c, r)
  {
    if a != [] {
      assert (a + b)[1..] == a[1..] + b;
      ReplaceConcat(a[1..], b, c, r);
    } else {
      assert a + b == b;
    }
  }

  /** A replacement text free of `c` leaves no `c` behind. */
  lemma {:induction false} ReplaceRemoves(s: string, c: char, r: string)
    requires c !in r
    ensures c !in ReplaceChar(s, c, r)
  {
    if s != [] {
      ReplaceRemoves(s[1..], c, r);
    }
  }

  /** Joining the pieces of a split with `r` is replacing every separator
      by `r`. */
  lemma {:induction false} JoinSplitReplace(s: string, sep: char, r: string)
    ensures Join(Split(s, sep), r) == ReplaceChar(s, sep, r)
    decreases |s|
  {
    if sep !in s {
      ReplaceAbsent(s, sep, r);
    } else {
      var before, rest := Before(s, sep), After(s, sep);
      var tail := Split(rest, sep);
      JoinSplitReplace(rest, sep, r);
      assert Split(s, sep) == [before] + tail;
      assert |tail| > 0;
      ReplaceAbsent(before, sep, r);
      ReplaceConcat(before + [sep], rest, sep, r);
      ReplaceConcat(before, [sep], sep, r);
      assert ReplaceChar([sep], sep, r) == r;
      calc {
        Join(Split(s, sep), r);
        before + r + Join(tail, r);
        before + r + ReplaceChar(rest, sep, r);
        ReplaceChar(before + [sep], sep, r) + ReplaceChar(rest, sep, r);
        ReplaceChar(s, sep, r);
      }
    }
  }

  /** Dropping the first `n` pieces of a split and joining the rest with `r`
      is the text after the `n`-th separator with every separator replaced
      by `r`. */
  lemma {:induction false} JoinDropSplit(s: string, sep: char, n: nat, r: string)
    ensures Join(Drop(Split(s, sep), n), r) == ReplaceChar(AfterNth(s, sep, n), sep, r)
    decreases n
  {
    if n == 0 {
      assert Drop(Split(s, sep), 0) == Split(s, sep);
      JoinSplitReplace(s, sep, r);
    } else if sep !in s {
      assert Drop(Split(s, sep), n) == [];
    } else {
      var rest := After(s, sep);
      assert Split(s, sep) == [Before(s, sep)] + Split(rest, sep);
      assert Drop(Split(s, sep), n) == Drop(Split(rest, sep), n - 1);
      JoinDropSplit(rest, sep, n - 1, r);
    }
  }
}
