/** Shared vocabulary of the backup pipeline model: failure-carrying results,
    order-preserving filtering, byte sums, the percent formula every stage uses,
    decimal rendering and the file-name timestamp. */
module Util {

  datatype Option<+T> = None | Some(value: T)

  datatype Result<+T, +E> = Ok(value: T) | Err(error: E)

  // ---------------------------------------------------------------------------
  // Sequences
  // ---------------------------------------------------------------------------

  /** xs is obtained from ys by dropping elements, keeping the order of the rest. */
  predicate IsSubsequence<T(==)>(xs: seq<T>, ys: seq<T>)
    decreases |ys|
  {
    if xs == [] then true
    else if ys == [] then false
    else if xs[0] == ys[0] then IsSubsequence(xs[1..], ys[1..])
    else IsSubsequence(xs, ys[1..])
  }

  lemma {:induction false} SubsequenceReflexive<T>(xs: seq<T>)
    ensures IsSubsequence(xs, xs)
  {
    if xs != [] {
      SubsequenceReflexive(xs[1..]);
    }
  }

  /** `Array.prototype.filter`: the elements satisfying keep, in their original order. */
  function Filter<T(==)>(xs: seq<T>, keep: T -> bool): (r: seq<T>)
    ensures |r| <= |xs|
    ensures forall i :: 0 <= i < |r| ==> r[i] in xs && keep(r[i])
    ensures forall i :: 0 <= i < |xs| && keep(xs[i]) ==> xs[i] in r
    ensures IsSubsequence(r, xs)
  {
    if xs == [] then []
    else
      assert xs == [xs[0]] + xs[1..];
      if keep(xs[0]) then [xs[0]] + Filter(xs[1..], keep)
      else Filter(xs[1..], keep)
  }

  /** Filtering keeps every occurrence of a kept element and none of the others. */
  lemma {:induction false} FilterCounts<T>(xs: seq<T>, keep: T -> bool)
    ensures forall x {:trigger multiset(Filter(xs, keep))[x]} ::
      multiset(Filter(xs, keep))[x] == if keep(x) then multiset(xs)[x] else 0
  {
    if xs != [] {
      FilterCounts(xs[1..], keep);
      assert xs == [xs[0]] + xs[1..];
      assert multiset(xs) == multiset([xs[0]]) + multiset(xs[1..]);
      if keep(xs[0]) {
        assert multiset(Filter(xs, keep)) == multiset([xs[0]]) + multiset(Filter(xs[1..], keep));
      }
    }
  }

  lemma {:induction false} FilterAppend<T>(xs: seq<T>, ys: seq<T>, keep: T -> bool)
    ensures Filter(xs + ys, keep) == Filter(xs, keep) + Filter(ys, keep)
  {
    if xs == [] {
      assert xs + ys == ys;
    } else {
      assert (xs + ys)[1..] == xs[1..] + ys;
      FilterAppend(xs[1..], ys, keep);
    }
  }

  /** Filtering twice with the same predicate is filtering once. */
  lemma {:induction false} FilterIdempotent<T>(xs: seq<T>, keep: T -> bool)
    ensures Filter(Filter(xs, keep), keep) == Filter(xs, keep)
  {
    if xs != [] {
      FilterIdempotent(xs[1..], keep);
    }
  }

  /** A filter that keeps every element is the identity. */
  lemma {:induction false} FilterKeepsAll<T>(xs: seq<T>, keep: T -> bool)
    requires forall i :: 0 <= i < |xs| ==> keep(xs[i])
    ensures Filter(xs, keep) == xs
  {
    if xs != [] {
      FilterKeepsAll(xs[1..], keep);
    }
  }

  /** Applies f to every element (`Array.prototype.map`). */
  function Map<T, U>(xs: seq<T>, f: T -> U): (r: seq<U>)
    ensures |r| == |xs|
    ensures forall i :: 0 <= i < |xs| ==> r[i] == f(xs[i])
  {
    if xs == [] then [] else [f(xs[0])] + Map(xs[1..], f)
  }

  /** Mapping one more element appends its image. */
  lemma MapSnoc<T, U>(xs: seq<T>, x: T, f: T -> U)
    ensures Map(xs + [x], f) == Map(xs, f) + [f(x)]
  {
  }


  /** Total of a sequence of byte counts. */
  function Sum(xs: seq<nat>): nat
  {
    if xs == [] then 0 else Sum(xs[..|xs| - 1]) + xs[|xs| - 1]
  }

  lemma {:induction false} SumPrefixMonotone(xs: seq<nat>, i: nat, j: nat)
    requires i <= j <= |xs|
    ensures Sum(xs[..i]) <= Sum(xs[..j])
    decreases j - i
  {
    if i < j {
      SumPrefixMonotone(xs, i, j - 1);
      assert xs[..j][..j - 1] == xs[..j - 1];
    }
  }

  predicate AllPositive(xs: seq<nat>)
  {
    forall i :: 0 <= i < |xs| ==> xs[i] > 0
  }

  /** How many of the indices 0 .. n-1 satisfy p: a counter incremented once
      per qualifying loop iteration. */
  function Count(n: nat, p: nat -> bool): (c: nat)
    ensures c <= n
  {
    if n == 0 then 0 else Count(n - 1, p) + (if p(n - 1) then 1 else 0)
  }

  /** The indices 0 .. n-1 that satisfy p, in increasing order: the positions a
      loop over n items picks out, one per qualifying iteration. */
  function Indices(n: nat, p: nat -> bool): seq<nat>
  {
    if n == 0 then [] else Indices(n - 1, p) + (if p(n - 1) then [n - 1] else [])
  }

  /** `Indices` lists, in strictly increasing order and once each, exactly the
      indices below n that satisfy p. */
  lemma {:induction false} IndicesPickExactly(n: nat, p: nat -> bool)
    ensures var idx := Indices(n, p);
      |idx| == Count(n, p) &&
      (forall k :: 0 <= k < |idx| ==> idx[k] < n && p(idx[k])) &&
      (forall k, l :: 0 <= k < l < |idx| ==> idx[k] < idx[l]) &&
      (forall i :: 0 <= i < n && p(i) ==> i in idx)
  {
    if n > 0 {
      IndicesPickExactly(n - 1, p);
      var last: nat := n - 1;
      var prev := Indices(last, p);
      if p(last) {
        var idx: seq<nat> := prev + [last];
        assert Indices(n, p) == idx;
        assert idx[|prev|] == last;
      } else {
        assert Indices(n, p) == prev;
      }
    }
  }

  /** The values of f at the indices below n that satisfy p, in increasing index
      order: what a loop pushing f(i) for each qualifying i collects. */
  function Picked<T>(n: nat, p: nat -> bool, f: nat -> T): seq<T>
  {
    if n == 0 then []
    else Picked(n - 1, p, f) + (if p(n - 1) then [f(n - 1)] else [])
  }

  /** What such a loop collects is f mapped over the qualifying indices. */
  lemma {:induction false} PickedIndices<T>(n: nat, p: nat -> bool, f: nat -> T)
    ensures Picked(n, p, f) == Map(Indices(n, p), f)
  {
    if n > 0 {
      PickedIndices(n - 1, p, f);
      var last: nat := n - 1;
      var prev := Indices(last, p);
      if p(last) {
        var next: seq<nat> := prev + [last];
        assert Indices(n, p) == next;
        MapSnoc(prev, last, f);
        assert Picked(n, p, f) == Map(prev, f) + [f(last)];
      } else {
        assert Indices(n, p) == prev;
      }
    }
  }

  // ---------------------------------------------------------------------------
  // Percentages
  // ---------------------------------------------------------------------------

  function Min(a: int, b: int): int
  {
    if a <= b then a else b
  }

  /** `Math.round((part / whole) * 100)` over the rationals: the integer nearest
      to 100*part/whole, halves rounded up. */
  function RoundPercent(part: nat, whole: nat): (p: nat)
    requires whole > 0
    ensures 2 * whole * p <= 200 * part + whole < 2 * whole * (p + 1)
  {
    (200 * part + whole) / (2 * whole)
  }

  lemma MulMonotone(d: int, a: int, b: int)
    requires d > 0 && a <= b
    ensures d * a <= d * b
  {
  }

  /** n / d is the one q with d*q <= n < d*(q+1). */
  lemma DivUnique(n: int, d: int, q: int)
    requires d > 0 && d * q <= n < d * (q + 1)
    ensures n / d == q
  {
    var k := n / d;
    assert d * k <= n < d * (k + 1);
    if k < q {
      MulMonotone(d, k + 1, q);
    } else if k > q {
      MulMonotone(d, q + 1, k);
    }
  }

  lemma DivMonotone(x: int, y: int, d: int)
    requires 0 <= x <= y && d > 0
    ensures x / d <= y / d
  {
    var qx, qy := x / d, y / d;
    assert d * qx <= x && y < d * (qy + 1);
    if qx > qy {
      MulMonotone(d, qy + 1, qx);
    }
  }

  lemma {:induction false} RoundPercentMonotone(a: nat, b: nat, whole: nat)
    requires a <= b && whole > 0
    ensures RoundPercent(a, whole) <= RoundPercent(b, whole)
  {
    DivMonotone(200 * a + whole, 200 * b + whole, 2 * whole);
  }

  /** A part equal to the whole rounds to exactly 100. */
  lemma {:induction false} RoundPercentWhole(whole: nat)
    requires whole > 0
    ensures RoundPercent(whole, whole) == 100
  {
    DivUnique(200 * whole + whole, 2 * whole, 100);
  }

  /** A part no larger than the whole rounds to at most 100. */
  lemma {:induction false} RoundPercentAtMost100(part: nat, whole: nat)
    requires 0 < whole && part <= whole
    ensures RoundPercent(part, whole) <= 100
  {
    RoundPercentMonotone(part, whole, whole);
    RoundPercentWhole(whole);
  }

  /** The percents `Math.round(((i + 1) / n) * 100)` reported by a loop over n items,
      for the iterations i < upTo that reach their progress update. */
  function LoopReports(n: nat, reached: nat -> bool, upTo: nat): (r: seq<int>)
    requires upTo <= n
    ensures |r| == Count(upTo, reached)
    ensures forall j :: 0 <= j < |r| ==> 0 <= r[j] <= 100
  {
    if upTo == 0 then []
    else
      RoundPercentAtMost100(upTo, n);
      LoopReports(n, reached, upTo - 1) + (if reached(upTo - 1) then [RoundPercent(upTo, n) as int] else [])
  }

  /** When the last iteration reaches its update, the last report is 100. */
  lemma LoopReportsEndAt100(n: nat, reached: nat -> bool)
    requires n > 0 && reached(n - 1)
    ensures LoopReports(n, reached, n)[|LoopReports(n, reached, n)| - 1] == 100
  {
    RoundPercentWhole(n);
  }

  /** The streaming percent shared by the exporter, the archiver and the uploader:
      `Math.min(95, Math.round((done / total) * 100))`. `done` is positive because
      streams never deliver empty chunks; with a zero total the JavaScript quotient
      is Infinity and the cap applies. */
  function CappedPercent(done: nat, total: nat): (p: int)
    requires done > 0
    ensures 0 <= p <= 95
    ensures total > 0 ==> p == Min(95, RoundPercent(done, total))
  {
    if total == 0 then 95 else Min(95, RoundPercent(done, total))
  }

  /** For a fixed total, more bytes never show a smaller percent. */
  lemma {:induction false} CappedPercentMonotone(a: nat, b: nat, total: nat)
    requires 0 < a <= b
    ensures CappedPercent(a, total) <= CappedPercent(b, total)
  {
    if total > 0 {
      RoundPercentMonotone(a, b, total);
    }
  }

  /** The percent a stream handler shows after chunk i of a transfer whose expected
      size is total: the bytes so far against total, capped at 95. */
  function StreamPercent(chunks: seq<nat>, i: nat, total: nat): (p: int)
    requires i < |chunks| && AllPositive(chunks)
    ensures 0 <= p <= 95
  {
    assert chunks[..i + 1][..i] == chunks[..i];
    CappedPercent(Sum(chunks[..i + 1]), total)
  }

  /** The percents shown for each chunk of a transfer whose expected size is total. */
  function StreamPercents(chunks: seq<nat>, total: nat): (r: seq<int>)
    requires AllPositive(chunks)
    ensures |r| == |chunks|
    ensures forall i :: 0 <= i < |r| ==> r[i] == StreamPercent(chunks, i, total) && 0 <= r[i] <= 95
  {
    seq(|chunks|, i requires 0 <= i < |chunks| => StreamPercent(chunks, i, total))
  }

  /** A `data` handler that adds each chunk to a running byte count and reports the
      capped percent against a fixed expected size. */
  method StreamProgress(chunks: seq<nat>, total: nat) returns (reports: seq<int>)
    requires AllPositive(chunks)
    ensures reports == StreamPercents(chunks, total)
    ensures forall i, j :: 0 <= i <= j < |reports| ==> reports[i] <= reports[j]
  {
    var done: nat := 0;
    reports := [];
    for i := 0 to |chunks|
      invariant done == Sum(chunks[..i])
      invariant |reports| == i
      invariant forall k :: 0 <= k < i ==> reports[k] == StreamPercent(chunks, k, total)
      invariant forall k, l :: 0 <= k <= l < i ==> reports[k] <= reports[l]
    {
      assert chunks[..i + 1][..i] == chunks[..i];
      done := done + chunks[i];
      var progress := CappedPercent(done, total);
      forall k | 0 <= k < i
        ensures reports[k] <= progress
      {
        SumPrefixMonotone(chunks, k + 1, i + 1);
        CappedPercentMonotone(Sum(chunks[..k + 1]), done, total);
      }
      reports := reports + [progress];
    }
  }

  /** A stream that delivers exactly the expected number of bytes ends on the cap. */
  lemma StreamEndsAtCap(chunks: seq<nat>, total: nat)
    requires |chunks| > 0 && AllPositive(chunks) && Sum(chunks) == total
    ensures StreamPercent(chunks, |chunks| - 1, total) == 95
  {
    assert chunks[..|chunks|] == chunks;
    RoundPercentWhole(total);
  }

  // ---------------------------------------------------------------------------
  // Text
  // ---------------------------------------------------------------------------

  function DigitChar(d: nat): char
    requires d < 10
  {
    "0123456789"[d]
  }

  /** Decimal rendering of a natural number, as a JavaScript template literal prints it. */
  function NatToString(n: nat): (s: string)
    ensures |s| >= 1
    ensures forall i :: 0 <= i < |s| ==> '0' <= s[i] <= '9'
    ensures |s| > 1 ==> s[0] != '0'
  {
    if n < 10 then [DigitChar(n)] else NatToString(n / 10) + [DigitChar(n % 10)]
  }

  /** Decimal rendering of an integer, with a leading '-' for negatives. */
  function IntToString(n: int): (s: string)
    ensures n >= 0 ==> s == NatToString(n)
    ensures n < 0 ==> s == "-" + NatToString(-n)
  {
    if n >= 0 then NatToString(n) else "-" + NatToString(-n)
  }

  /** Reads a string of decimal digits back as a number. */
  function ParseDigits(s: string): nat
    requires forall i :: 0 <= i < |s| ==> '0' <= s[i] <= '9'
  {
    if s == [] then 0 else 10 * ParseDigits(s[..|s| - 1]) + (s[|s| - 1] - '0') as nat
  }

  /** The rendering of a number reads back as that number. */
  lemma {:induction false} NatToStringRoundTrip(n: nat)
    ensures ParseDigits(NatToString(n)) == n
  {
    var s := NatToString(n);
    DigitValue(n % 10);
    if n < 10 {
      assert s == [DigitChar(n)] && s[..0] == [];
    } else {
      NatToStringRoundTrip(n / 10);
      assert s[..|s| - 1] == NatToString(n / 10);
      assert s[|s| - 1] == DigitChar(n % 10);
    }
  }

  lemma DigitValue(d: nat)
    requires d < 10
    ensures (DigitChar(d) - '0') as nat == d
  {
  }

  /** `new Date().toISOString().replace(/[:.]/g, '-')`: the clock reading as a
      file-name-safe stamp. */
  function FileStamp(iso: string): (ts: string)
    ensures |ts| == |iso|
    ensures forall i :: 0 <= i < |iso| ==> ts[i] == if iso[i] == ':' || iso[i] == '.' then '-' else iso[i]
  {
    if iso == [] then []
    else [if iso[0] == ':' || iso[0] == '.' then '-' else iso[0]] + FileStamp(iso[1..])
  }

  /** No stamp contains ':' or '.'. */
  lemma FileStampIsSafe(iso: string)
    ensures forall i :: 0 <= i < |FileStamp(iso)| ==> FileStamp(iso)[i] != ':' && FileStamp(iso)[i] != '.'
  {
  }

  /** s without its trailing run of c. */
  function DropTrailing(s: string, c: char): (r: string)
    ensures |r| <= |s| && r == s[..|r|]
    ensures r == [] || r[|r| - 1] != c
    ensures forall i :: |r| <= i < |s| ==> s[i] == c
  {
    if s != [] && s[|s| - 1] == c then DropTrailing(s[..|s| - 1], c) else s
  }

  /** The text after the last '/' of s (all of s when it has none). */
  function AfterLastSlash(s: string): (r: string)
    ensures |r| <= |s| && r == s[|s| - |r|..]
    ensures '/' !in r
    ensures |r| < |s| ==> s[|s| - |r| - 1] == '/'
  {
    if s == [] || s[|s| - 1] == '/' then [] else AfterLastSlash(s[..|s| - 1]) + [s[|s| - 1]]
  }

  /** `path.basename` for POSIX paths: trailing slashes are ignored, then the last
      component is taken. */
  function Basename(path: string): (b: string)
    ensures '/' !in b
  {
    AfterLastSlash(DropTrailing(path, '/'))
  }

  /** A name without slashes is its own basename. */
  lemma {:induction false} BasenameOfName(name: string)
    requires '/' !in name
    ensures Basename(name) == name
  {
    if name != [] {
      assert name[|name| - 1] in name;
    }
    AfterLastSlashOfName(name);
  }

  lemma {:induction false} AfterLastSlashOfName(name: string)
    requires '/' !in name
    ensures AfterLastSlash(name) == name
  {
    if name != [] {
      assert name[|name| - 1] in name;
      assert forall c :: c in name[..|name| - 1] ==> c in name;
      AfterLastSlashOfName(name[..|name| - 1]);
    }
  }

  /** The basename of dir + "/" + name is name. */
  lemma {:induction false} BasenameOfJoin(dir: string, name: string)
    requires '/' !in name && name != []
    ensures Basename(dir + "/" + name) == name
  {
    var p := dir + "/" + name;
    assert p[|p| - 1] == name[|name| - 1];
    assert name[|name| - 1] in name;
    assert DropTrailing(p, '/') == p;
    AfterLastSlashOfJoin(dir, name);
  }

  lemma AfterLastSlashOfJoin(dir: string, name: string)
    requires '/' !in name
    ensures AfterLastSlash(dir + "/" + name) == name
  {
    var p := dir + "/" + name;
    assert p[|p| - |name| - 1] == '/';
    assert p[|p| - |name|..] == name;
  }


  predicate StartsWith(s: string, prefix: string)
  {
    |prefix| <= |s| && s[..|prefix|] == prefix
  }

  /** `String.prototype.includes`. */
  predicate Contains(s: string, sub: string)
    decreases |s|
  {
    StartsWith(s, sub) || (s != [] && Contains(s[1..], sub))
  }

  /** sub occurs in s starting at position i. */
  predicate OccursAt(s: string, sub: string, i: nat)
  {
    i + |sub| <= |s| && s[i..i + |sub|] == sub
  }

  /** s contains sub exactly when sub occurs at some position of s. */
  lemma {:induction false} ContainsIff(s: string, sub: string)
    ensures Contains(s, sub) <==> exists i: nat :: OccursAt(s, sub, i)
  {
    if s == [] {
      if sub == [] {
        assert OccursAt(s, sub, 0);
      }
      if exists i: nat :: OccursAt(s, sub, i) {
        var i: nat :| OccursAt(s, sub, i);
        assert sub == [];
      }
    } else {
      ContainsIff(s[1..], sub);
      if StartsWith(s, sub) {
        assert s[0..|sub|] == s[..|sub|];
        assert OccursAt(s, sub, 0);
      }
      if exists i: nat :: OccursAt(s[1..], sub, i) {
        var i: nat :| OccursAt(s[1..], sub, i);
        assert s[1..][i..i + |sub|] == s[i + 1..i + 1 + |sub|];
        assert OccursAt(s, sub, i + 1);
      }
      if exists i: nat :: OccursAt(s, sub, i) {
        var i: nat :| OccursAt(s, sub, i);
        if i > 0 {
          assert s[1..][i - 1..i - 1 + |sub|] == s[i..i + |sub|];
          assert OccursAt(s[1..], sub, i - 1);
        } else {
          assert StartsWith(s, sub);
        }
      }
    }
  }

  predicate IsLineTerminator(c: char)
  {
    c == '\n' || c == '\r' || c == '\U{2028}' || c == '\U{2029}'
  }

  predicate NoLineTerminators(s: string)
  {
    forall i :: 0 <= i < |s| ==> !IsLineTerminator(s[i])
  }
}
