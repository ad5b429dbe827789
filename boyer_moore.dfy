/** Exact byte-string search with the Boyer–Moore skip tables of `stringFinder`
    (utils/search.go:68-183). The finder is a class whose two tables are arrays
    filled once by its constructor; `Next` is proved to return exactly what a
    naive left-to-right search returns. */
module BoyerMoore {

  /** A Go `byte`. */
  type byte = b: int | 0 <= b < 256

  /** Go's `max` helper. */
  function Max(a: int, b: int): (r: int)
    ensures a <= r && b <= r
    ensures r == a || r == b
  {
    if a > b then a else b
  }

  /** `bytes.HasPrefix(s, prefix)`. */
  predicate HasPrefix(s: seq<byte>, prefix: seq<byte>) {
    |prefix| <= |s| && s[..|prefix|] == prefix
  }

  // ---------------------------------------------------------------------------
  // What a search must return
  // ---------------------------------------------------------------------------

  /** `p` occurs in `text` starting at index `t`. */
  ghost predicate MatchAt(p: seq<byte>, text: seq<byte>, t: int) {
    0 <= t && t + |p| <= |text| && forall k :: 0 <= k < |p| ==> text[t + k] == p[k]
  }

  /** Naive search: the first occurrence of `p` in `text` at index `t` or later, or -1. */
  ghost function FirstOccurrenceFrom(p: seq<byte>, text: seq<byte>, t: nat): (r: int)
    decreases |text| - t
    ensures r == -1 || (t <= r && MatchAt(p, text, r))
    ensures forall u :: t <= u && (r == -1 || u < r) ==> !MatchAt(p, text, u)
  {
    if |text| < t + |p| then -1
    else if MatchAt(p, text, t) then t
    else FirstOccurrenceFrom(p, text, t + 1)
  }

  /** The index of the leftmost occurrence of `p` in `text`, or -1 if there is none. */
  ghost function FirstOccurrence(p: seq<byte>, text: seq<byte>): (r: int)
    ensures r == -1 <==> forall u :: !MatchAt(p, text, u)
    ensures r != -1 ==> 0 <= r <= |text| - |p| && text[r..r + |p|] == p
    ensures r != -1 ==> MatchAt(p, text, r) && forall u :: u < r ==> !MatchAt(p, text, u)
    ensures |text| < |p| ==> r == -1
  {
    var r := FirstOccurrenceFrom(p, text, 0);
    assert r != -1 ==> text[r..r + |p|] == p;
    r
  }

  // ---------------------------------------------------------------------------
  // The bad-character table
  // ---------------------------------------------------------------------------

  /** The rightmost index below `n` at which `p` holds `b`, or -1 if there is none. */
  ghost function LastIndexBefore(p: seq<byte>, b: byte, n: int): (r: int)
    requires n <= |p|
    decreases n
    ensures r == -1 || (0 <= r < n && p[r] == b)
    ensures forall k :: r < k < n ==> p[k] != b
  {
    if n <= 0 then -1
    else if p[n - 1] == b then n - 1
    else LastIndexBefore(p, b, n - 1)
  }

  /** The value `badCharSkip[b]` must hold: the distance from the last index of `p`
      to the rightmost occurrence of `b` in `p` other than at the last index, or
      `|p|` when `b` occurs nowhere before the last index. */
  ghost function BadCharShift(p: seq<byte>, b: byte): (r: int)
    ensures |p| > 0 ==> 1 <= r <= |p|
    ensures r == |p| <==> forall k :: 0 <= k < |p| - 1 ==> p[k] != b
    ensures r < |p| ==> p[|p| - 1 - r] == b && forall k :: |p| - 1 - r < k < |p| - 1 ==> p[k] != b
  {
    (|p| - 1) - LastIndexBefore(p, b, |p| - 1)
  }

  // ---------------------------------------------------------------------------
  // The good-suffix table
  // ---------------------------------------------------------------------------

  /** After a mismatch at pattern index `j`, with `p[j+1..]` matched against the
      text, moving the matching frame `d` places to the right is consistent with
      what was read: the part of the matched suffix still under the frame faces
      equal pattern bytes, and the mismatched text byte (if still under the
      frame) faces a byte other than `p[j]`. */
  ghost predicate ShiftConsistent(p: seq<byte>, j: int, d: int)
    requires 0 <= j < |p| && 1 <= d <= |p|
  {
    var lo := if j < d then d else j + 1;
    SameRun(p, lo - d, lo, |p| - lo) && (d <= j ==> p[j - d] != p[j])
  }

  /** The `len` bytes of `p` from `a` equal the `len` bytes from `b`. */
  ghost predicate SameRun(p: seq<byte>, a: int, b: int, len: int)
    requires 0 <= a && 0 <= b && 0 <= len && a + len <= |p| && b + len <= |p|
    decreases len
  {
    len == 0 || (p[a] == p[b] && SameRun(p, a + 1, b + 1, len - 1))
  }

  /** `SameRun` is equality of the two slices. */
  lemma {:induction false} SameRunSlices(p: seq<byte>, a: int, b: int, len: int)
    requires 0 <= a && 0 <= b && 0 <= len && a + len <= |p| && b + len <= |p|
    decreases len
    ensures SameRun(p, a, b, len) <==> p[a..a + len] == p[b..b + len]
  {
    if len > 0 {
      SameRunSlices(p, a + 1, b + 1, len - 1);
      assert p[a..a + len] == [p[a]] + p[a + 1..a + 1 + (len - 1)];
      assert p[b..b + len] == [p[b]] + p[b + 1..b + 1 + (len - 1)];
      if p[a..a + len] == p[b..b + len] {
        assert p[a..a + len][0] == p[b..b + len][0];
        assert p[a..a + len][1..] == p[b..b + len][1..];
      }
    }
  }

  /** The least consistent frame shift that is at least `d`. */
  ghost function LeastShiftFrom(p: seq<byte>, j: int, d: int): (r: int)
    requires 0 <= j < |p| && 1 <= d <= |p|
    decreases |p| - d
    ensures d <= r <= |p| && ShiftConsistent(p, j, r)
    ensures forall e :: d <= e < r ==> !ShiftConsistent(p, j, e)
  {
    if d == |p| || ShiftConsistent(p, j, d) then d else LeastShiftFrom(p, j, d + 1)
  }

  /** The value `goodSuffixSkip[j]` must hold: the cursor advance that moves the
      frame to the least consistent shift, `len(suffix) + shift`. */
  ghost function GoodSuffixShift(p: seq<byte>, j: int): (r: int)
    requires 0 <= j < |p|
    ensures |p| - j <= r <= 2 * |p| - 1 - j
    ensures ShiftConsistent(p, j, r - (|p| - 1 - j))
    ensures forall d :: 1 <= d < r - (|p| - 1 - j) ==> !ShiftConsistent(p, j, d)
  {
    (|p| - 1 - j) + LeastShiftFrom(p, j, 1)
  }

  /** The suffix of `p` from index `m` is also a prefix of `p`. */
  ghost predicate PrefixAt(p: seq<byte>, m: int)
    requires 0 <= m <= |p|
  {
    HasPrefix(p, p[m..])
  }

  /** `m` is the next index after `j` at which a suffix of `p` that is also a
      prefix of `p` starts (what the first pass of the table construction tracks
      in `lastPrefix`). */
  ghost predicate NextPrefixStart(p: seq<byte>, j: int, m: int)
    requires 0 <= j
  {
    j < m <= |p| && PrefixAt(p, m) &&
    forall m' :: j < m' < m ==> !PrefixAt(p, m')
  }

  /** Beyond the mismatch, a shift is consistent exactly when the pattern's
      suffix from the new frame start is a prefix of the pattern. */
  lemma ConsistentBeyondMismatch(p: seq<byte>, j: int, d: int)
    requires 0 <= j < d <= |p|
    ensures ShiftConsistent(p, j, d) <==> PrefixAt(p, d)
  {
    SameRunSlices(p, 0, d, |p| - d);
    assert p[0..|p| - d] == p[..|p| - d];
    assert p[d..d + (|p| - d)] == p[d..];
  }

  /** `k` is the length of the longest common suffix of `a` and `b`. */
  ghost predicate IsLongestCommonSuffix(a: seq<byte>, b: seq<byte>, k: int) {
    0 <= k <= |a| && k <= |b| && CommonSuffix(a, b, k) &&
    (k == |a| || k == |b| || a[|a| - 1 - k] != b[|b| - 1 - k])
  }

  /** `a` and `b` end in the same `k` bytes. */
  ghost predicate CommonSuffix(a: seq<byte>, b: seq<byte>, k: int)
    requires 0 <= k <= |a| && k <= |b|
    decreases k
  {
    k == 0 || (a[|a| - k] == b[|b| - k] && CommonSuffix(a, b, k - 1))
  }

  /** `CommonSuffix` is equality of the two suffixes. */
  lemma {:induction false} CommonSuffixSlices(a: seq<byte>, b: seq<byte>, k: int)
    requires 0 <= k <= |a| && k <= |b|
    decreases k
    ensures CommonSuffix(a, b, k) <==> a[|a| - k..] == b[|b| - k..]
  {
    if k > 0 {
      CommonSuffixSlices(a, b, k - 1);
      assert a[|a| - k..] == [a[|a| - k]] + a[|a| - (k - 1)..];
      assert b[|b| - k..] == [b[|b| - k]] + b[|b| - (k - 1)..];
      if a[|a| - k..] == b[|b| - k..] {
        assert a[|a| - k..][0] == b[|b| - k..][0];
        assert a[|a| - k..][1..] == b[|b| - k..][1..];
      }
    }
  }

  /** Step `i` of the second pass found `n` as the longest common suffix of `p`
      and `p[1..i+1]`, stated on `p` alone: the last `n` bytes of `p` recur
      ending at index `i`, and the bytes before the two copies differ unless
      `p[1..i+1]` is used up. */
  ghost predicate SuffixMatch(p: seq<byte>, i: int, n: int)
    requires 0 <= i < |p|
  {
    0 <= n <= i && SameRun(p, i + 1 - n, |p| - n, n) && (n == i || p[i - n] != p[|p| - 1 - n])
  }

  /** What `longestCommonSuffix(pattern, pattern[1:i+1])` returns is a `SuffixMatch`. */
  lemma SuffixMatchOfCommonSuffix(p: seq<byte>, i: int, n: int)
    requires 0 <= i < |p| - 1
    requires IsLongestCommonSuffix(p, p[1..i + 1], n)
    ensures SuffixMatch(p, i, n)
  {
    CommonSuffixRun(p, i, n);
    assert n < i ==> p[1..i + 1][i - 1 - n] == p[i - n];
  }

  /** A common suffix of `p` and `p[1..i+1]` of length `n` is a run of `p`
      that recurs ending at index `i`. */
  lemma {:induction false} CommonSuffixRun(p: seq<byte>, i: int, n: int)
    requires 0 <= i < |p| - 1 && 0 <= n <= i
    requires CommonSuffix(p, p[1..i + 1], n)
    decreases n
    ensures SameRun(p, i + 1 - n, |p| - n, n)
  {
    if n > 0 {
      assert p[1..i + 1][i - n] == p[i + 1 - n];
      CommonSuffixRun(p, i, n - 1);
    }
  }

  /** Inside a run, the bytes at each offset agree. */
  lemma {:induction false} SameRunAt(p: seq<byte>, a: int, b: int, len: int, x: int)
    requires 0 <= a && 0 <= b && 0 <= len && a + len <= |p| && b + len <= |p|
    requires SameRun(p, a, b, len) && 0 <= x < len
    decreases len
    ensures p[a + x] == p[b + x]
  {
    if x > 0 {
      SameRunAt(p, a + 1, b + 1, len - 1, x - 1);
    }
  }

  /** There is only one longest common suffix. */
  lemma SuffixMatchUnique(p: seq<byte>, i: int, n1: int, n2: int)
    requires 0 <= i < |p|
    requires SuffixMatch(p, i, n1) && SuffixMatch(p, i, n2)
    ensures n1 == n2
  {
    if n1 < n2 {
      SameRunAt(p, i + 1 - n2, |p| - n2, n2, n2 - 1 - n1);
    } else if n2 < n1 {
      SameRunAt(p, i + 1 - n1, |p| - n1, n1, n1 - 1 - n2);
    }
  }

  /** When the second pass writes `goodSuffixSkip[last - n]`, the shift it
      records, `last - i`, is consistent for that mismatch index. */
  lemma WrittenShiftConsistent(p: seq<byte>, i: int, n: int)
    requires 0 <= i < |p| - 1
    requires SuffixMatch(p, i, n)
    requires p[i - n] != p[|p| - 1 - n]
    ensures |p| - 1 - i <= |p| - 1 - n && ShiftConsistent(p, |p| - 1 - n, |p| - 1 - i)
  {
  }

  /** Conversely, every consistent shift `last - i` at or below a mismatch index
      `j` is found by the second pass at step `i`, which writes it to slot `j`. */
  lemma SuffixFound(p: seq<byte>, i: int, n: int, j: int)
    requires 0 <= i < |p| - 1 && 0 <= j < |p|
    requires SuffixMatch(p, i, n)
    ensures |p| - 1 - i <= j && ShiftConsistent(p, j, |p| - 1 - i) ==>
              n == |p| - 1 - j && p[i - n] != p[|p| - 1 - n]
  {
    var d := |p| - 1 - i;
    if d <= j && ShiftConsistent(p, j, d) {
      assert SuffixMatch(p, i, |p| - 1 - j);
      SuffixMatchUnique(p, i, n, |p| - 1 - j);
    }
  }

  /** `D` is a candidate frame shift for mismatch index `j` while the second pass
      still has shifts `1..pending` to examine: `D` is consistent, and every
      smaller shift is inconsistent unless it is both at most `j` and pending. */
  ghost predicate ShiftCandidate(p: seq<byte>, j: int, D: int, pending: int)
    requires 0 <= j < |p|
  {
    1 <= D <= |p| && ShiftConsistent(p, j, D) &&
    forall d :: 1 <= d < D && (j < d || pending < d) ==> !ShiftConsistent(p, j, d)
  }

  /** Every slot of the table `g` holds a candidate. */
  ghost predicate Candidates(p: seq<byte>, g: seq<int>, pending: int) {
    |g| == |p| && CandidatesFrom(p, g, pending, 0)
  }

  /** Every slot of `g` from `j` on holds a candidate (slot by slot, so that the
      table invariant of the second pass is unfolded only where needed). */
  ghost predicate CandidatesFrom(p: seq<byte>, g: seq<int>, pending: int, j: int)
    requires |g| == |p| && 0 <= j <= |p|
    decreases |p| - j
  {
    j == |p| || (ShiftCandidate(p, j, g[j] - (|p| - 1 - j), pending) && CandidatesFrom(p, g, pending, j + 1))
  }

  /** Every slot of `g` holds a candidate, stated for all slots at once. */
  ghost predicate AllCandidates(p: seq<byte>, g: seq<int>, pending: int) {
    |g| == |p| &&
    forall j :: 0 <= j < |p| ==> ShiftCandidate(p, j, g[j] - (|p| - 1 - j), pending)
  }

  lemma CandidatesAll(p: seq<byte>, g: seq<int>, pending: int)
    ensures Candidates(p, g, pending) <==> AllCandidates(p, g, pending)
  {
    if |g| == |p| {
      CandidatesFromAll(p, g, pending, 0);
    }
  }

  lemma {:induction false} CandidatesFromAll(p: seq<byte>, g: seq<int>, pending: int, j: int)
    requires |g| == |p| && 0 <= j <= |p|
    decreases |p| - j
    ensures CandidatesFrom(p, g, pending, j) <==>
              forall k :: j <= k < |p| ==> ShiftCandidate(p, k, g[k] - (|p| - 1 - k), pending)
  {
    if j < |p| {
      CandidatesFromAll(p, g, pending, j + 1);
    }
  }

  /** The first pass leaves a candidate in every slot. */
  lemma FirstPassCandidates(p: seq<byte>, g: seq<int>)
    requires PrefixDone(p, g, -1)
    ensures Candidates(p, g, |p| - 1 - 0)
  {
    forall j | 0 <= j < |p|
      ensures ShiftCandidate(p, j, g[j] - (|p| - 1 - j), |p| - 1)
    {
      var m := g[j] - (|p| - 1 - j);
      ConsistentBeyondMismatch(p, j, m);
      forall d | j < d < m
        ensures !ShiftConsistent(p, j, d)
      {
        ConsistentBeyondMismatch(p, j, d);
      }
    }
    CandidatesAll(p, g, |p| - 1 - 0);
  }

  /** The slot the second pass writes at step `i` holds a candidate afterwards. */
  lemma WrittenSlotCandidate(p: seq<byte>, i: int, n: int, j: int, D: int)
    requires 0 <= i < |p| - 1
    requires SuffixMatch(p, i, n)
    requires p[i - n] != p[|p| - 1 - n]
    requires j == |p| - 1 - n && D == |p| - 1 - i
    ensures 0 <= j < |p| && ShiftCandidate(p, j, D, |p| - 1 - (i + 1))
  {
    WrittenShiftConsistent(p, i, n);
  }

  /** A slot the second pass leaves alone at step `i` keeps a candidate, since
      the shift `last - i` it settles is inconsistent for that slot. */
  lemma KeptSlotCandidate(p: seq<byte>, i: int, j: int, D: int)
    requires 0 <= i < |p| - 1 && 0 <= j < |p|
    requires ShiftCandidate(p, j, D, |p| - 1 - i)
    requires |p| - 1 - i <= j ==> !ShiftConsistent(p, j, |p| - 1 - i)
    ensures ShiftCandidate(p, j, D, |p| - 1 - (i + 1))
  {
    forall d | 1 <= d < D && (j < d || |p| - 1 - (i + 1) < d)
      ensures !ShiftConsistent(p, j, d)
    {
      if d == |p| - 1 - i && d <= j {
      } else {
        assert j < d || |p| - 1 - i < d;
      }
    }
  }

  /** After step `i` of the second pass, slot `j` holds a candidate: the shift
      `last - i` when the step wrote slot `last - n`, its old candidate otherwise. */
  lemma SlotAfterWrite(p: seq<byte>, i: int, n: int, j: int, D: int, D': int)
    requires 0 <= i < |p| - 1 && 0 <= j < |p|
    requires SuffixMatch(p, i, n)
    requires p[i - n] != p[|p| - 1 - n]
    requires ShiftCandidate(p, j, D, |p| - 1 - i)
    requires D' == if j == |p| - 1 - n then |p| - 1 - i else D
    ensures ShiftCandidate(p, j, D', |p| - 1 - (i + 1))
  {
    if j == |p| - 1 - n {
      WrittenSlotCandidate(p, i, n, j, D');
    } else {
      SuffixFound(p, i, n, j);
      KeptSlotCandidate(p, i, j, D);
    }
  }

  /** A step `i` of the second pass that writes `n + last - i` into slot
      `last - n` of `g`, giving `g'`, keeps a candidate in every slot and
      settles the shift `last - i`. */
  lemma SuffixStepWrites(p: seq<byte>, g: seq<int>, g': seq<int>, i: int, n: int)
    requires 0 <= i < |p| - 1
    requires SuffixMatch(p, i, n)
    requires p[i - n] != p[|p| - 1 - n]
    requires Candidates(p, g, |p| - 1 - i)
    requires |g'| == |p| && g'[|p| - 1 - n] == n + |p| - 1 - i
    requires forall j :: 0 <= j < |p| && j != |p| - 1 - n ==> g'[j] == g[j]
    ensures Candidates(p, g', |p| - 1 - (i + 1))
  {
    CandidatesAll(p, g, |p| - 1 - i);
    WriteKeepsAllCandidates(p, g, g', i, n);
    CandidatesAll(p, g', |p| - 1 - (i + 1));
  }

  lemma WriteKeepsAllCandidates(p: seq<byte>, g: seq<int>, g': seq<int>, i: int, n: int)
    requires 0 <= i < |p| - 1
    requires SuffixMatch(p, i, n)
    requires p[i - n] != p[|p| - 1 - n]
    requires AllCandidates(p, g, |p| - 1 - i)
    requires |g'| == |p| && g'[|p| - 1 - n] == n + |p| - 1 - i
    requires forall j :: 0 <= j < |p| && j != |p| - 1 - n ==> g'[j] == g[j]
    ensures AllCandidates(p, g', |p| - 1 - (i + 1))
  {
    forall j | 0 <= j < |p|
      ensures ShiftCandidate(p, j, g'[j] - (|p| - 1 - j), |p| - 1 - (i + 1))
    {
      SlotAfterWrite(p, i, n, j, g[j] - (|p| - 1 - j), g'[j] - (|p| - 1 - j));
    }
  }

  /** A step `i` of the second pass that writes nothing keeps a candidate in
      every slot and settles the shift `last - i`. */
  lemma SuffixStepKeeps(p: seq<byte>, g: seq<int>, i: int, n: int)
    requires 0 <= i < |p| - 1
    requires SuffixMatch(p, i, n)
    requires p[i - n] == p[|p| - 1 - n]
    requires Candidates(p, g, |p| - 1 - i)
    ensures Candidates(p, g, |p| - 1 - (i + 1))
  {
    CandidatesAll(p, g, |p| - 1 - i);
    MatchKeepsAllCandidates(p, g, i, n);
    CandidatesAll(p, g, |p| - 1 - (i + 1));
  }

  lemma MatchKeepsAllCandidates(p: seq<byte>, g: seq<int>, i: int, n: int)
    requires 0 <= i < |p| - 1
    requires SuffixMatch(p, i, n)
    requires p[i - n] == p[|p| - 1 - n]
    requires AllCandidates(p, g, |p| - 1 - i)
    ensures AllCandidates(p, g, |p| - 1 - (i + 1))
  {
    forall j | 0 <= j < |p|
      ensures ShiftCandidate(p, j, g[j] - (|p| - 1 - j), |p| - 1 - (i + 1))
    {
      SuffixFound(p, i, n, j);
      KeptSlotCandidate(p, i, j, g[j] - (|p| - 1 - j));
    }
  }

  /** Once no shift is pending, every slot holds exactly the good-suffix shift. */
  lemma SettledCandidates(p: seq<byte>, g: seq<int>, pending: int)
    requires Candidates(p, g, pending) && pending <= 0
    ensures forall j :: 0 <= j < |p| ==> g[j] == GoodSuffixShift(p, j)
  {
    CandidatesAll(p, g, pending);
    forall j | 0 <= j < |p|
      ensures g[j] == GoodSuffixShift(p, j)
    {
      var D := g[j] - (|p| - 1 - j);
      var r := LeastShiftFrom(p, j, 1);
      assert !(r < D);
      assert !(D < r);
    }
  }

  // ---------------------------------------------------------------------------
  // Building the tables (MakeStringFinder)
  // ---------------------------------------------------------------------------

  /** Fills `badCharSkip`: every entry `|p|`, then `last - i` for each `i < last`. */
  method FillBadCharSkip(p: seq<byte>, bad: array<int>)
    requires bad.Length == 256
    modifies bad
    ensures forall b :: 0 <= b < 256 ==> bad[b] == BadCharShift(p, b)
  {
    var b := 0;
    while b < 256
      invariant 0 <= b <= 256
      invariant forall c :: 0 <= c < b ==> bad[c] == |p|
    {
      bad[b] := |p|;
      b := b + 1;
    }
    var last := |p| - 1;
    var i := 0;
    while i < last
      invariant 0 <= i && (i <= last || i == 0)
      invariant forall c :: 0 <= c < 256 ==> bad[c] == last - LastIndexBefore(p, c, i)
    {
      bad[p[i]] := last - i;
      i := i + 1;
    }
  }

  /** Slots above `i` of `g` hold what the first pass puts there. */
  ghost predicate PrefixDone(p: seq<byte>, g: seq<int>, i: int) {
    |g| == |p| &&
    forall j :: i < j < |p| && 0 <= j ==> NextPrefixStart(p, j, g[j] - (|p| - 1 - j))
  }

  /** One step of the first pass: testing `p[i+1..]` moves `lastPrefix` to the
      next prefix start after `i`. */
  lemma LastPrefixStep(p: seq<byte>, i: int, lastPrefix: int)
    requires 0 <= i < |p|
    requires i < |p| - 1 ==> NextPrefixStart(p, i + 1, lastPrefix)
    ensures NextPrefixStart(p, i, if HasPrefix(p, p[i + 1..]) then i + 1 else lastPrefix)
  {
    assert PrefixAt(p, |p|) by { assert p[|p|..] == [] && p[..0] == []; }
  }

  /** Recording the next prefix start for slot `i` extends the finished slots. */
  lemma PrefixSlotStep(p: seq<byte>, g: seq<int>, i: int, lastPrefix: int)
    requires 0 <= i < |p| && PrefixDone(p, g, i)
    requires NextPrefixStart(p, i, lastPrefix)
    ensures PrefixDone(p, g[i := lastPrefix + (|p| - 1) - i], i - 1)
  {
  }

  /** First pass: right to left, `goodSuffixSkip[i] := lastPrefix + last - i`
      where `lastPrefix` is the next index after `i` at which a prefix of the
      pattern starts again. */
  method PrefixPass(p: seq<byte>, good: array<int>)
    requires good.Length == |p|
    modifies good
    ensures PrefixDone(p, good[..], -1)
  {
    var last := |p| - 1;
    var lastPrefix := last;
    var i := last;
    while i >= 0
      invariant -1 <= i <= last
      invariant i < last ==> NextPrefixStart(p, i + 1, lastPrefix)
      invariant PrefixDone(p, good[..], i)
    {
      LastPrefixStep(p, i, lastPrefix);
      if HasPrefix(p, p[i + 1..]) {
        lastPrefix := i + 1;
      }
      ghost var before := good[..];
      PrefixSlotStep(p, before, i, lastPrefix);
      good[i] := lastPrefix + last - i;
      assert good[..] == before[i := lastPrefix + (|p| - 1) - i];
      i := i - 1;
    }
  }

  /** Second pass: left to right, for each `i < last` find the longest common
      suffix of `p` and `p[1..i+1]` and, when the bytes before the two copies
      differ, record the shift `last - i` at the slot before the suffix. */
  method SuffixPass(p: seq<byte>, good: array<int>)
    requires good.Length == |p|
    requires Candidates(p, good[..], |p| - 1 - 0)
    modifies good
    ensures forall j :: 0 <= j < |p| ==> good[j] == GoodSuffixShift(p, j)
  {
    var last := |p| - 1;
    var i := 0;
    while i < last
      invariant 0 <= i && (i <= last || i == 0)
      invariant Candidates(p, good[..], |p| - 1 - i)
    {
      var lenSuffix := LongestCommonSuffix(p, p[1..i + 1]);
      SuffixMatchOfCommonSuffix(p, i, lenSuffix);
      if p[i - lenSuffix] != p[last - lenSuffix] {
        ghost var before := good[..];
        good[last - lenSuffix] := lenSuffix + last - i;
        SuffixStepWrites(p, before, good[..], i, lenSuffix);
      } else {
        SuffixStepKeeps(p, good[..], i, lenSuffix);
      }
      i := i + 1;
    }
    SettledCandidates(p, good[..], |p| - 1 - i);
  }

  /** `longestCommonSuffix`: counts matching bytes from the ends of `a` and `b`. */
  method LongestCommonSuffix(a: seq<byte>, b: seq<byte>) returns (k: int)
    ensures IsLongestCommonSuffix(a, b, k)
  {
    k := 0;
    while k < |a| && k < |b|
      invariant 0 <= k <= |a| && k <= |b|
      invariant CommonSuffix(a, b, k)
    {
      if a[|a| - 1 - k] != b[|b| - 1 - k] {
        break;
      }
      k := k + 1;
    }
  }

  // ---------------------------------------------------------------------------
  // Why the skips are safe
  // ---------------------------------------------------------------------------

  /** An occurrence at `t` right of a frame at `s` that mismatched at `j` makes
      the shift `t - s` consistent. */
  lemma MatchForcesConsistentShift(p: seq<byte>, text: seq<byte>, s: int, j: int, t: int)
    requires 0 <= s < t && 0 <= j < |p| && s + |p| <= |text| && t - s <= |p|
    requires text[s + j] != p[j]
    requires forall k :: j < k < |p| ==> text[s + k] == p[k]
    ensures MatchAt(p, text, t) ==> ShiftConsistent(p, j, t - s)
  {
    if MatchAt(p, text, t) {
      var d := t - s;
      var lo := if j < d then d else j + 1;
      MatchForcesRun(p, text, s, t, lo);
      if d <= j {
        assert text[t + (j - d)] == p[j - d];
      }
    }
  }

  /** An occurrence at `t`, and a frame at `s < t` whose bytes from `lo` on
      match, make the run of `p` from `lo` recur `t - s` places earlier. */
  lemma MatchForcesRun(p: seq<byte>, text: seq<byte>, s: int, t: int, lo: int)
    requires 0 <= s < t && t - s <= lo <= |p| && s + |p| <= |text|
    requires forall k :: lo <= k < |p| ==> text[s + k] == p[k]
    requires MatchAt(p, text, t)
    ensures SameRun(p, lo - (t - s), lo, |p| - lo)
  {
    var d := t - s;
    var earlier, later := p[lo - d..lo - d + (|p| - lo)], p[lo..lo + (|p| - lo)];
    forall x | 0 <= x < |p| - lo
      ensures earlier[x] == later[x]
    {
      assert text[t + (lo - d + x)] == p[lo - d + x];
      assert text[s + (lo + x)] == p[lo + x];
    }
    assert earlier == later;
    SameRunSlices(p, lo - d, lo, |p| - lo);
  }

  /** A frame start `t` that the bad-character shift jumps over cannot hold an
      occurrence: the text byte `c` at the mismatch would face a pattern byte at
      an index between the rightmost `c` before the last index and the mismatch. */
  lemma BadCharSkipSafe(p: seq<byte>, text: seq<byte>, s: int, j: int, t: int)
    requires 0 <= s < t && 0 <= j < |p| && s + |p| <= |text|
    requires t < s + j + BadCharShift(p, text[s + j]) - (|p| - 1)
    ensures !MatchAt(p, text, t)
  {
    var c := text[s + j];
    var m := j - (t - s);
    assert p[m] != c;
    assert t + m == s + j;
  }

  /** A frame start `t` that the good-suffix shift jumps over cannot hold an
      occurrence: it would be a smaller consistent shift. */
  lemma GoodSuffixSkipSafe(p: seq<byte>, text: seq<byte>, s: int, j: int, t: int)
    requires 0 <= s < t && 0 <= j < |p| && s + |p| <= |text|
    requires text[s + j] != p[j]
    requires forall k :: j < k < |p| ==> text[s + k] == p[k]
    requires t < s + j + GoodSuffixShift(p, j) - (|p| - 1)
    ensures !MatchAt(p, text, t)
  {
    MatchForcesConsistentShift(p, text, s, j, t);
  }

  /** Advancing the cursor by `Max(badCharSkip[text[s+j]], goodSuffixSkip[j])`
      after a mismatch at `j` in the frame starting at `s` moves the frame right
      and skips no occurrence. */
  lemma SkipMissesNoMatch(p: seq<byte>, text: seq<byte>, s: int, j: int)
    requires 0 <= s && 0 <= j < |p| && s + |p| <= |text|
    requires text[s + j] != p[j]
    requires forall k :: j < k < |p| ==> text[s + k] == p[k]
    requires forall t :: t < s ==> !MatchAt(p, text, t)
    ensures Max(BadCharShift(p, text[s + j]), GoodSuffixShift(p, j)) >= |p| - j
    ensures forall t :: t < s + j + Max(BadCharShift(p, text[s + j]), GoodSuffixShift(p, j)) - (|p| - 1) ==>
                        !MatchAt(p, text, t)
  {
    var bad, good := BadCharShift(p, text[s + j]), GoodSuffixShift(p, j);
    forall t | t < s + j + Max(bad, good) - (|p| - 1)
      ensures !MatchAt(p, text, t)
    {
      if t == s {
        assert text[s + j] != p[j];
      } else if s < t && t < s + j + bad - (|p| - 1) {
        BadCharSkipSafe(p, text, s, j, t);
      } else if s < t {
        GoodSuffixSkipSafe(p, text, s, j, t);
      }
    }
  }

  // ---------------------------------------------------------------------------
  // The finder
  // ---------------------------------------------------------------------------

  /** `stringFinder`: the pattern and its two skip tables. */
  class StringFinder {
    const pattern: seq<byte>
    const badCharSkip: array<int>
    const goodSuffixSkip: array<int>

    /** The tables hold the shifts the pattern determines. */
    ghost predicate Valid()
      reads badCharSkip, goodSuffixSkip
    {
      badCharSkip.Length == 256 && goodSuffixSkip.Length == |pattern| &&
      (forall b :: 0 <= b < 256 ==> badCharSkip[b] == BadCharShift(pattern, b)) &&
      (forall j :: 0 <= j < |pattern| ==> goodSuffixSkip[j] == GoodSuffixShift(pattern, j))
    }

    /** Every table entry is a forward shift. A bad-character entry lies in
        `[1, |pattern|]`, and it is `|pattern|` exactly for the bytes absent from
        `pattern[..last]`. A good-suffix entry moves the cursor past the
        mismatched byte. */
    lemma TablesHoldShifts()
      requires Valid()
      ensures |pattern| > 0 ==> forall b :: 0 <= b < 256 ==> 1 <= badCharSkip[b] <= |pattern|
      ensures forall b :: 0 <= b < 256 ==>
                (badCharSkip[b] == |pattern| <==> forall k :: 0 <= k < |pattern| - 1 ==> pattern[k] != b)
      ensures forall j :: 0 <= j < |pattern| ==> |pattern| - j <= goodSuffixSkip[j] <= 2 * |pattern| - 1 - j
    {
    }

    /** `MakeStringFinder`. */
    constructor (p: seq<byte>)
      ensures pattern == p && Valid()
      ensures fresh(badCharSkip) && fresh(goodSuffixSkip)
    {
      pattern := p;
      var bad := new int[256];
      FillBadCharSkip(p, bad);
      var good := new int[|p|];
      PrefixPass(p, good);
      FirstPassCandidates(p, good[..]);
      SuffixPass(p, good);
      badCharSkip, goodSuffixSkip := bad, good;
    }

    /** `next`: the index of the first occurrence of the pattern in `text`, or -1. */
    method Next(text: seq<byte>) returns (r: int)
      requires Valid()
      ensures r == FirstOccurrence(pattern, text)
    {
      var last := |pattern| - 1;
      var i := last;
      while i < |text|
        invariant last <= i
        invariant forall t :: t < i - last ==> !MatchAt(pattern, text, t)
        decreases |text| - i
      {
        ghost var s := i - last;
        var j := last;
        // Compare backwards from the end until the first unmatching byte.
        while j >= 0 && text[i] == pattern[j]
          invariant -1 <= j <= last && i == s + j
          invariant forall k :: j < k < |pattern| ==> text[s + k] == pattern[k]
          decreases j
        {
          i := i - 1;
          j := j - 1;
        }
        if j < 0 {
          assert MatchAt(pattern, text, s);
          return i + 1;
        }
        SkipMissesNoMatch(pattern, text, s, j);
        i := i + Max(badCharSkip[text[i]], goodSuffixSkip[j]);
      }
      return -1;
    }
  }

  // ---------------------------------------------------------------------------
  // Worked examples
  // ---------------------------------------------------------------------------

  /** The doc comment's first case: in "mississi" the suffix "issi" recurs at
      index 1, so `goodSuffixSkip[3] == 3 + 4 == 7`. */
  lemma MississiGoodSuffixSkip()
    ensures GoodSuffixShift([109, 105, 115, 115, 105, 115, 115, 105], 3) == 7
  {
    var p: seq<byte> := [109, 105, 115, 115, 105, 115, 115, 105];
    assert !ShiftConsistent(p, 3, 1);
    assert !ShiftConsistent(p, 3, 2);
    assert ShiftConsistent(p, 3, 3) by { SameRunSlices(p, 1, 4, 4); assert p[1..5] == p[4..8]; }
    assert LeastShiftFrom(p, 3, 1) == 3;
  }

  /** The doc comment's second case: in "abcxxxabc" the suffix "xxabc" does not
      recur but "abc" is a prefix, so `goodSuffixSkip[3] == 6 + 5 == 11`. */
  lemma AbcxxxabcGoodSuffixSkip()
    ensures GoodSuffixShift([97, 98, 99, 120, 120, 120, 97, 98, 99], 3) == 11
  {
    var p: seq<byte> := [97, 98, 99, 120, 120, 120, 97, 98, 99];
    assert !ShiftConsistent(p, 3, 1) by {
      if SameRun(p, 3, 4, 5) {
        SameRunAt(p, 3, 4, 5, 2);
      }
    }
    assert !ShiftConsistent(p, 3, 2);
    assert !ShiftConsistent(p, 3, 3);
    assert !ShiftConsistent(p, 3, 4);
    assert !ShiftConsistent(p, 3, 5);
    assert ShiftConsistent(p, 3, 6) by { SameRunSlices(p, 0, 6, 3); assert p[0..3] == p[6..9]; }
    assert LeastShiftFrom(p, 3, 1) == 6;
  }

  /** Searching "xxabcxx" for "abc" finds index 2. */
  lemma FoundExample()
    ensures FirstOccurrence([97, 98, 99], [120, 120, 97, 98, 99, 120, 120]) == 2
  {
    var p: seq<byte> := [97, 98, 99];
    var text: seq<byte> := [120, 120, 97, 98, 99, 120, 120];
    assert MatchAt(p, text, 2);
    assert !MatchAt(p, text, 0) by { assert text[0 + 0] != p[0]; }
    assert !MatchAt(p, text, 1) by { assert text[1 + 0] != p[0]; }
  }

  /** Searching "xyz" for "abc" finds nothing. */
  lemma NotFoundExample()
    ensures FirstOccurrence([97, 98, 99], [120, 121, 122]) == -1
  {
    var p: seq<byte> := [97, 98, 99];
    var text: seq<byte> := [120, 121, 122];
    forall u
      ensures !MatchAt(p, text, u)
    {
      if u == 0 {
        assert text[u + 0] != p[0];
      }
    }
  }
}
