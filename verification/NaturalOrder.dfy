/** Byte strings as Go sees them, and Go's own ordering on them. */
module ByteStrings {
  type Byte = b: int | 0 <= b < 256

  const ZERO: Byte := 48
  const NINE: Byte := 57

  predicate IsDigit(b: Byte) {
    ZERO <= b <= NINE
  }

  /** Go's built-in `<` on strings. */
  predicate LexLess(s: seq<Byte>, t: seq<Byte>) {
    t != [] && (s == [] || s[0] < t[0] || (s[0] == t[0] && LexLess(s[1..], t[1..])))
  }

  lemma {:induction false} LexLessIrreflexive(s: seq<Byte>)
    ensures !LexLess(s, s)
  {
    if s != [] {
      LexLessIrreflexive(s[1..]);
    }
  }

  lemma {:induction false} LexLessTransitive(s: seq<Byte>, t: seq<Byte>, u: seq<Byte>)
    requires LexLess(s, t) && LexLess(t, u)
    ensures LexLess(s, u)
  {
    if s != [] && s[0] == t[0] && t[0] == u[0] {
      LexLessTransitive(s[1..], t[1..], u[1..]);
    }
  }

  lemma {:induction false} LexLessTotal(s: seq<Byte>, t: seq<Byte>)
    ensures LexLess(s, t) || s == t || LexLess(t, s)
  {
    if s != [] && t != [] && s[0] == t[0] {
      LexLessTotal(s[1..], t[1..]);
      assert s == [s[0]] + s[1..] && t == [t[0]] + t[1..];
    }
  }
}

/** `naturalLess` of features/dfee/filter.go: the order in which chart series are listed. */
module NaturalOrder {
  import opened ByteStrings
  import opened GoNumbers

  predicate AllDigits(s: seq<Byte>) {
    forall k :: 0 <= k < |s| ==> IsDigit(s[k])
  }

  /** How many digits `s` starts with. */
  function RunLength(s: seq<Byte>): (n: nat)
    ensures n <= |s|
    ensures AllDigits(s[..n])
    ensures n < |s| ==> !IsDigit(s[n])
  {
    if s == [] || !IsDigit(s[0]) then 0
    else
      var n := 1 + RunLength(s[1..]);
      assert s[..n] == [s[0]] + s[1..][..n - 1];
      n
  }

  /** The split of `s` into maximal digit runs and single other bytes. */
  function Tokens(s: seq<Byte>): seq<seq<Byte>>
    decreases |s|
  {
    if s == [] then []
    else if IsDigit(s[0]) then
      [s[..RunLength(s)]] + Tokens(s[RunLength(s)..])
    else
      [s[..1]] + Tokens(s[1..])
  }

  predicate IsRun(t: seq<Byte>) {
    t != [] && AllDigits(t)
  }

  predicate IsToken(t: seq<Byte>) {
    IsRun(t) || (|t| == 1 && !IsDigit(t[0]))
  }

  /** Runs by length and then by bytes; anything else by its first byte. */
  predicate TokenLess(t: seq<Byte>, u: seq<Byte>)
    requires t != [] && u != []
  {
    if IsDigit(t[0]) && IsDigit(u[0]) then
      |t| < |u| || (|t| == |u| && LexLess(t, u))
    else
      t[0] < u[0]
  }

  /** The lexicographic extension of `TokenLess`. */
  predicate TokensLess(ts: seq<seq<Byte>>, us: seq<seq<Byte>>)
    requires forall k :: 0 <= k < |ts| ==> ts[k] != []
    requires forall k :: 0 <= k < |us| ==> us[k] != []
  {
    us != [] &&
    (ts == [] || TokenLess(ts[0], us[0]) || (ts[0] == us[0] && TokensLess(ts[1..], us[1..])))
  }

  function Join(ts: seq<seq<Byte>>): seq<Byte> {
    if ts == [] then [] else ts[0] + Join(ts[1..])
  }

  /** Nothing is lost by the split, every piece is a token, and no run could have been longer. */
  lemma {:induction false} TokensAreTheMaximalSplit(s: seq<Byte>)
    ensures Join(Tokens(s)) == s
    ensures forall k :: 0 <= k < |Tokens(s)| ==> IsToken(Tokens(s)[k])
    ensures forall k :: 0 <= k < |Tokens(s)| - 1 ==> !(IsRun(Tokens(s)[k]) && IsRun(Tokens(s)[k + 1]))
    ensures s != [] ==> Tokens(s) != [] && Tokens(s)[0][0] == s[0]
    decreases |s|
  {
    if s != [] {
      var n := if IsDigit(s[0]) then RunLength(s) else 1;
      TokensAreTheMaximalSplit(s[n..]);
      assert Tokens(s) == [s[..n]] + Tokens(s[n..]);
      assert s == s[..n] + s[n..];
    }
  }

  /** `naturalLess`, as an order on whole strings. */
  predicate Less(a: seq<Byte>, b: seq<Byte>) {
    TokensAreTheMaximalSplit(a);
    TokensAreTheMaximalSplit(b);
    TokensLess(Tokens(a), Tokens(b))
  }

  /** One equal token in front does not change the comparison. */
  lemma LessAfterCommonToken(a: seq<Byte>, b: seq<Byte>, n: nat)
    requires 0 < n <= |a| && n <= |b| && a[..n] == b[..n]
    requires IsDigit(a[0]) ==> n == RunLength(a) == RunLength(b)
    requires !IsDigit(a[0]) ==> n == 1
    ensures Less(a, b) == Less(a[n..], b[n..])
  {
    assert a[0] == a[..n][0] == b[..n][0] == b[0];
    TokenLessIrreflexive(a[..n]);
    assert Tokens(a) == [a[..n]] + Tokens(a[n..]);
    assert Tokens(b) == [b[..n]] + Tokens(b[n..]);
  }

  /** Two digit runs of different contents, or two different bytes, decide at once. */
  lemma LessAtDifferentTokens(a: seq<Byte>, b: seq<Byte>)
    requires a != [] && b != []
    requires IsDigit(a[0]) && IsDigit(b[0]) ==> a[..RunLength(a)] != b[..RunLength(b)]
    requires !(IsDigit(a[0]) && IsDigit(b[0])) ==> a[0] != b[0]
    ensures IsDigit(a[0]) && IsDigit(b[0]) ==>
              Less(a, b) == TokenLess(a[..RunLength(a)], b[..RunLength(b)])
    ensures !(IsDigit(a[0]) && IsDigit(b[0])) ==> Less(a, b) == (a[0] < b[0])
  {
    TokensAreTheMaximalSplit(a);
    TokensAreTheMaximalSplit(b);
  }

  lemma {:induction false} RunLengthIs(s: seq<Byte>, n: nat)
    requires n <= |s| && AllDigits(s[..n])
    requires n == |s| || !IsDigit(s[n])
    ensures RunLength(s) == n
  {
    if n > 0 {
      assert s[..n][0] == s[0];
      assert s[1..][..n - 1] == s[..n][1..];
      RunLengthIs(s[1..], n - 1);
    }
  }

  /** The maximal digit run of `s` that starts at `start` ends at `end`. */
  predicate RunEndsAt(s: seq<Byte>, start: nat, end: nat) {
    start <= end <= |s| && AllDigits(s[start..end]) && (end == |s| || !IsDigit(s[end]))
  }

  lemma AfterRuns(a: seq<Byte>, b: seq<Byte>, start: nat, endA: nat, endB: nat)
    requires start < |a| && start < |b| && IsDigit(a[start]) && IsDigit(b[start])
    requires RunEndsAt(a, start, endA) && RunEndsAt(b, start, endB)
    ensures a[start..endA] == b[start..endB] ==>
              endA == endB && Less(a[start..], b[start..]) == Less(a[endA..], b[endB..])
    ensures a[start..endA] != b[start..endB] ==>
              endA > start && endB > start &&
              Less(a[start..], b[start..]) == TokenLess(a[start..endA], b[start..endB])
  {
    var restA, restB, n, m := a[start..], b[start..], endA - start, endB - start;
    assert a[start..endA] == restA[..n] && b[start..endB] == restB[..m];
    assert a[endA..] == restA[n..] && b[endB..] == restB[m..];
    RunLengthIs(restA, n);
    RunLengthIs(restB, m);
    if restA[..n] == restB[..m] {
      assert n == |restA[..n]| == m;
      LessAfterCommonToken(restA, restB, n);
    } else {
      LessAtDifferentTokens(restA, restB);
    }
  }

  lemma AfterEqualBytes(a: seq<Byte>, b: seq<Byte>, i: nat)
    requires i < |a| && i < |b| && a[i] == b[i] && !IsDigit(a[i])
    ensures Less(a[i..], b[i..]) == Less(a[i + 1..], b[i + 1..])
  {
    assert a[i..][..1] == b[i..][..1];
    assert a[i..][1..] == a[i + 1..] && b[i..][1..] == b[i + 1..];
    LessAfterCommonToken(a[i..], b[i..], 1);
  }

  lemma AtExhaustedString(a: seq<Byte>, b: seq<Byte>)
    requires a == [] || b == []
    ensures Less(a, b) <==> |a| < |b|
  {
    TokensAreTheMaximalSplit(b);
  }

  /** The inner loop of the scan, which the source writes once for each string. */
  method SkipDigits(s: seq<Byte>, start: nat) returns (end: nat)
    requires start <= |s|
    ensures RunEndsAt(s, start, end)
  {
    end := start;
    while end < |s| && IsDigit(s[end])
      invariant start <= end <= |s|
      invariant AllDigits(s[start..end])
    {
      assert s[start..end + 1] == s[start..end] + [s[end]];
      end := end + 1;
    }
  }

  /** The two-index scan of the source decides exactly the token order. */
  method NaturalLess(a: seq<Byte>, b: seq<Byte>) returns (less: bool)
    ensures less == Less(a, b)
  {
    var i, j := 0, 0;
    assert a[0..] == a && b[0..] == b;
    while i < |a| && j < |b|
      invariant 0 <= i <= |a| && 0 <= j <= |b|
      invariant i == j
      invariant Less(a, b) == Less(a[i..], b[j..])
      decreases |a| - i
    {
      var ai, bi := a[i], b[j];
      if IsDigit(ai) && IsDigit(bi) {
        var startI, startJ := i, j;
        i := SkipDigits(a, i);
        j := SkipDigits(b, j);
        var numA, numB := a[startI..i], b[startJ..j];
        AfterRuns(a, b, startI, i, j);
        if |numA| != |numB| {
          return |numA| < |numB|;
        }
        if numA != numB {
          return LexLess(numA, numB);
        }
        continue;
      }
      if ai != bi {
        LessAtDifferentTokens(a[i..], b[j..]);
        return ai < bi;
      }
      AfterEqualBytes(a, b, i);
      i := i + 1;
      j := j + 1;
    }
    AtExhaustedString(a[i..], b[j..]);
    return |a| < |b|;
  }

  // ----- a strict total order ---------------------------------------------------------

  lemma TokenLessIrreflexive(t: seq<Byte>)
    requires t != []
    ensures !TokenLess(t, t)
  {
    LexLessIrreflexive(t);
  }

  lemma TokenLessTransitive(t: seq<Byte>, u: seq<Byte>, v: seq<Byte>)
    requires IsToken(t) && IsToken(u) && IsToken(v)
    requires TokenLess(t, u) && TokenLess(u, v)
    ensures TokenLess(t, v)
  {
    if |t| == |u| == |v| && LexLess(t, u) && LexLess(u, v) {
      LexLessTransitive(t, u, v);
    }
  }

  lemma TokenLessTotal(t: seq<Byte>, u: seq<Byte>)
    requires IsToken(t) && IsToken(u)
    ensures TokenLess(t, u) || t == u || TokenLess(u, t)
  {
    LexLessTotal(t, u);
  }

  predicate AllTokens(ts: seq<seq<Byte>>) {
    forall k :: 0 <= k < |ts| ==> IsToken(ts[k])
  }

  lemma {:induction false} TokensLessIrreflexive(ts: seq<seq<Byte>>)
    requires AllTokens(ts)
    ensures !TokensLess(ts, ts)
  {
    if ts != [] {
      TokenLessIrreflexive(ts[0]);
      TokensLessIrreflexive(ts[1..]);
    }
  }

  lemma {:induction false} TokensLessTransitive(ts: seq<seq<Byte>>, us: seq<seq<Byte>>, vs: seq<seq<Byte>>)
    requires AllTokens(ts) && AllTokens(us) && AllTokens(vs)
    requires TokensLess(ts, us) && TokensLess(us, vs)
    ensures TokensLess(ts, vs)
  {
    if ts != [] {
      if TokenLess(ts[0], us[0]) && TokenLess(us[0], vs[0]) {
        TokenLessTransitive(ts[0], us[0], vs[0]);
      } else if ts[0] == us[0] == vs[0] {
        TokenLessIrreflexive(ts[0]);
        TokensLessTransitive(ts[1..], us[1..], vs[1..]);
      }
    }
  }

  lemma {:induction false} TokensLessTotal(ts: seq<seq<Byte>>, us: seq<seq<Byte>>)
    requires AllTokens(ts) && AllTokens(us)
    ensures TokensLess(ts, us) || ts == us || TokensLess(us, ts)
  {
    if ts != [] && us != [] {
      TokenLessTotal(ts[0], us[0]);
      if ts[0] == us[0] {
        TokensLessTotal(ts[1..], us[1..]);
        assert ts == [ts[0]] + ts[1..] && us == [us[0]] + us[1..];
      }
    }
  }

  lemma LessIrreflexive(a: seq<Byte>)
    ensures !Less(a, a)
  {
    TokensAreTheMaximalSplit(a);
    TokensLessIrreflexive(Tokens(a));
  }

  lemma LessTransitive(a: seq<Byte>, b: seq<Byte>, c: seq<Byte>)
    requires Less(a, b) && Less(b, c)
    ensures Less(a, c)
  {
    TokensAreTheMaximalSplit(a);
    TokensAreTheMaximalSplit(b);
    TokensAreTheMaximalSplit(c);
    TokensLessTransitive(Tokens(a), Tokens(b), Tokens(c));
  }

  /** Two strings of which neither is less are the same string: sorting by it leaves no ties. */
  lemma LessTotal(a: seq<Byte>, b: seq<Byte>)
    ensures Less(a, b) || a == b || Less(b, a)
  {
    TokensAreTheMaximalSplit(a);
    TokensAreTheMaximalSplit(b);
    TokensLessTotal(Tokens(a), Tokens(b));
  }

  // ----- agreement with numeric value ---------------------------------------------------

  /** The number a digit run denotes. */
  function Value(t: seq<Byte>): nat
    requires AllDigits(t)
  {
    if t == [] then 0 else 10 * Value(t[..|t| - 1]) + (t[|t| - 1] - ZERO)
  }

  /** The digits are the ASCII codes of 0 to 9, and a digit more makes the number ten times as large, and more. */
  lemma DigitExactly(t: seq<Byte>, b: Byte)
    ensures IsDigit(b) <==> 48 <= b < 58
    ensures AllDigits(t) && IsDigit(b) ==> Value(t + [b]) == 10 * Value(t) + (b - 48) && Value([b]) == b - 48
  {
    assert (t + [b])[..|t|] == t;
  }

  lemma {:induction false} ValueBounds(t: seq<Byte>)
    requires AllDigits(t)
    ensures Value(t) < Pow10(|t|)
    ensures t != [] && t[0] != ZERO ==> Value(t) >= Pow10(|t| - 1)
  {
    if t != [] {
      ValueBounds(t[..|t| - 1]);
    }
  }

  lemma {:induction false} Pow10Monotone(m: nat, n: nat)
    requires m <= n
    ensures Pow10(m) <= Pow10(n)
    decreases n
  {
    if m < n {
      Pow10Monotone(m, n - 1);
    }
  }

  lemma {:induction false} LexLessSnoc(t: seq<Byte>, a: Byte, u: seq<Byte>, b: Byte)
    requires |t| == |u|
    ensures LexLess(t + [a], u + [b]) <==> LexLess(t, u) || (t == u && a < b)
  {
    if t != [] {
      LexLessSnoc(t[1..], a, u[1..], b);
      assert (t + [a])[1..] == t[1..] + [a] && (u + [b])[1..] == u[1..] + [b];
      assert t == [t[0]] + t[1..] && u == [u[0]] + u[1..];
    }
  }

  /** Between runs of one length, byte order is numeric order. */
  lemma {:induction false} SameLengthOrderIsNumeric(t: seq<Byte>, u: seq<Byte>)
    requires AllDigits(t) && AllDigits(u) && |t| == |u|
    ensures LexLess(t, u) <==> Value(t) < Value(u)
    ensures t == u <==> Value(t) == Value(u)
  {
    if t != [] {
      var n := |t| - 1;
      SameLengthOrderIsNumeric(t[..n], u[..n]);
      LexLessSnoc(t[..n], t[n], u[..n], u[n]);
      assert t == t[..n] + [t[n]] && u == u[..n] + [u[n]];
    }
  }

  lemma {:induction false} LeadingZeroCountsNothing(t: seq<Byte>)
    requires IsRun(t) && t[0] == ZERO
    ensures Value(t[1..]) == Value(t)
  {
    var n := |t| - 1;
    if n > 0 {
      LeadingZeroCountsNothing(t[..n]);
      assert t[..n][1..] == t[1..][..n - 1];
    }
  }

  /** Runs of one length are ordered by value, leading zeros or not; of others the shorter comes first. */
  lemma RunsByLengthThenValue(t: seq<Byte>, u: seq<Byte>)
    requires IsRun(t) && IsRun(u)
    ensures TokenLess(t, u) <==> |t| < |u| || (|t| == |u| && Value(t) < Value(u))
  {
    if |t| == |u| {
      SameLengthOrderIsNumeric(t, u);
    }
  }

  // ----- which strings come first -------------------------------------------------------

  predicate EndsInDigit(s: seq<Byte>) {
    s != [] && IsDigit(s[|s| - 1])
  }

  predicate StartsWithDigit(s: seq<Byte>) {
    s != [] && IsDigit(s[0])
  }

  /** The last run of `p` goes on in `s`. */
  predicate GoesOn(p: seq<Byte>, s: seq<Byte>) {
    EndsInDigit(p) && StartsWithDigit(s)
  }

  lemma RunOfPrefixed(p: seq<Byte>, s: seq<Byte>)
    requires StartsWithDigit(p) && !GoesOn(p, s)
    ensures RunLength(p + s) == RunLength(p)
  {
    var n := RunLength(p);
    assert (p + s)[..n] == p[..n];
    assert n == |p| ==> p[..n] == p && !StartsWithDigit(s);
    RunLengthIs(p + s, n);
  }

  /** A common beginning that does not break a run changes nothing. */
  lemma {:induction false} CommonPrefixDoesNotMatter(p: seq<Byte>, a: seq<Byte>, b: seq<Byte>)
    requires !GoesOn(p, a) && !GoesOn(p, b)
    ensures Less(p + a, p + b) <==> Less(a, b)
    decreases |p|
  {
    if p == [] {
      assert p + a == a && p + b == b;
    } else {
      var n := 1;
      if IsDigit(p[0]) {
        n := RunLength(p);
        RunOfPrefixed(p, a);
        RunOfPrefixed(p, b);
      }
      assert (p + a)[..n] == p[..n] == (p + b)[..n];
      assert (p + a)[n..] == p[n..] + a && (p + b)[n..] == p[n..] + b;
      LessAfterCommonToken(p + a, p + b, n);
      CommonPrefixDoesNotMatter(p[n..], a, b);
    }
  }

  /** How two strings differ after the common beginning `p`: in runs of digits, in bytes not both of which
      are digits, or by one of them ending. */
  datatype Difference =
    | InRuns(p: seq<Byte>, t: seq<Byte>, x: seq<Byte>, u: seq<Byte>, y: seq<Byte>)
    | InBytes(p: seq<Byte>, c: Byte, x: seq<Byte>, d: Byte, y: seq<Byte>)
    | FirstEnds(p: seq<Byte>, y: seq<Byte>)
    | SecondEnds(p: seq<Byte>, x: seq<Byte>)

  predicate DifferBy(a: seq<Byte>, b: seq<Byte>, diff: Difference) {
    match diff
    case InRuns(p, t, x, u, y) =>
      && a == p + (t + x) && b == p + (u + y) && !EndsInDigit(p)
      && IsRun(t) && IsRun(u) && t != u && !StartsWithDigit(x) && !StartsWithDigit(y)
    case InBytes(p, c, x, d, y) =>
      && a == p + ([c] + x) && b == p + ([d] + y) && !GoesOn(p, [c]) && !GoesOn(p, [d])
      && c != d && !(IsDigit(c) && IsDigit(d))
    case FirstEnds(p, y) => a == p && b == p + y && y != [] && !GoesOn(p, y)
    case SecondEnds(p, x) => a == p + x && b == p && x != [] && !GoesOn(p, x)
  }

  /** The shorter run comes first, and of runs of one length the one of smaller value; the smaller byte; the
      string that ends. */
  predicate FirstComesFirst(diff: Difference)
    requires diff.InRuns? ==> IsRun(diff.t) && IsRun(diff.u)
  {
    match diff
    case InRuns(_, t, _, u, _) => |t| < |u| || (|t| == |u| && Value(t) < Value(u))
    case InBytes(_, c, _, d, _) => c < d
    case FirstEnds(_, _) => true
    case SecondEnds(_, _) => false
  }

  lemma DifferentRunsDecide(t: seq<Byte>, x: seq<Byte>, u: seq<Byte>, y: seq<Byte>)
    requires IsRun(t) && IsRun(u) && t != u && !StartsWithDigit(x) && !StartsWithDigit(y)
    ensures Less(t + x, u + y) <==> |t| < |u| || (|t| == |u| && Value(t) < Value(u))
  {
    assert (t + x)[..|t|] == t && (u + y)[..|u|] == u;
    RunLengthIs(t + x, |t|);
    RunLengthIs(u + y, |u|);
    LessAtDifferentTokens(t + x, u + y);
    RunsByLengthThenValue(t, u);
  }

  /** The order of any two strings, by how they differ. */
  lemma OrderIsByDifference(a: seq<Byte>, b: seq<Byte>, diff: Difference)
    requires DifferBy(a, b, diff)
    ensures Less(a, b) <==> FirstComesFirst(diff)
  {
    match diff
    case InRuns(p, t, x, u, y) =>
      CommonPrefixDoesNotMatter(p, t + x, u + y);
      DifferentRunsDecide(t, x, u, y);
    case InBytes(p, c, x, d, y) =>
      CommonPrefixDoesNotMatter(p, [c] + x, [d] + y);
      LessAtDifferentTokens([c] + x, [d] + y);
    case FirstEnds(p, y) =>
      assert p + [] == p;
      CommonPrefixDoesNotMatter(p, [], y);
      AtExhaustedString([], y);
    case SecondEnds(p, x) =>
      assert p + [] == p;
      CommonPrefixDoesNotMatter(p, x, []);
      AtExhaustedString(x, []);
  }

  function After(q: seq<Byte>, diff: Difference): Difference {
    diff.(p := q + diff.p)
  }

  lemma DifferAfter(q: seq<Byte>, a: seq<Byte>, b: seq<Byte>, diff: Difference)
    requires DifferBy(a, b, diff) && !GoesOn(q, a) && !GoesOn(q, b)
    ensures DifferBy(q + a, q + b, After(q, diff))
  {
    var p := diff.p;
    assert EndsInDigit(q + p) <==> if p == [] then EndsInDigit(q) else EndsInDigit(p);
    if diff.InRuns? {
      assert p == [] ==> a == diff.t + diff.x && a[0] == diff.t[0];
      assert q + (p + (diff.t + diff.x)) == q + p + (diff.t + diff.x);
      assert q + (p + (diff.u + diff.y)) == q + p + (diff.u + diff.y);
    } else if diff.InBytes? {
      assert p == [] ==> a[0] == diff.c && b[0] == diff.d;
      assert q + (p + ([diff.c] + diff.x)) == q + p + ([diff.c] + diff.x);
      assert q + (p + ([diff.d] + diff.y)) == q + p + ([diff.d] + diff.y);
    } else if diff.FirstEnds? {
      assert p == [] ==> b == diff.y;
      assert q + (p + diff.y) == q + p + diff.y;
    } else {
      assert p == [] ==> a == diff.x;
      assert q + (p + diff.x) == q + p + diff.x;
    }
  }

  /** The length of the first token. */
  function FirstToken(s: seq<Byte>): (n: nat)
    requires s != []
    ensures 0 < n <= |s| && (IsDigit(s[0]) ==> AllDigits(s[..n]) && !StartsWithDigit(s[n..]))
    ensures !IsDigit(s[0]) ==> n == 1
  {
    if IsDigit(s[0]) then RunLength(s) else 1
  }

  lemma DifferAtOnce(a: seq<Byte>, b: seq<Byte>) returns (diff: Difference)
    requires a != [] && b != [] && a[..FirstToken(a)] != b[..FirstToken(b)]
    ensures DifferBy(a, b, diff)
  {
    var n, m := FirstToken(a), FirstToken(b);
    if IsDigit(a[0]) && IsDigit(b[0]) {
      diff := InRuns([], a[..n], a[n..], b[..m], b[m..]);
      assert [] + (a[..n] + a[n..]) == a && [] + (b[..m] + b[m..]) == b;
    } else {
      assert a[..1] == [a[0]] && b[..1] == [b[0]];
      diff := InBytes([], a[0], a[1..], b[0], b[1..]);
      assert [] + ([a[0]] + a[1..]) == a && [] + ([b[0]] + b[1..]) == b;
    }
  }

  lemma TokenDoesNotGoOn(s: seq<Byte>)
    requires s != []
    ensures !GoesOn(s[..FirstToken(s)], s[FirstToken(s)..])
  {
  }

  /** Any two strings differ in one of these ways, so the order is known on all of them. */
  lemma {:induction false} SomeDifference(a: seq<Byte>, b: seq<Byte>) returns (diff: Difference)
    requires a != b
    ensures DifferBy(a, b, diff)
    decreases |a|
  {
    if a == [] {
      diff := FirstEnds([], b);
    } else if b == [] {
      diff := SecondEnds([], a);
    } else if a[..FirstToken(a)] != b[..FirstToken(b)] {
      diff := DifferAtOnce(a, b);
    } else {
      var q, a', b' := a[..FirstToken(a)], a[FirstToken(a)..], b[FirstToken(b)..];
      assert a == q + a' && b == q + b';
      TokenDoesNotGoOn(a);
      TokenDoesNotGoOn(b);
      diff := SomeDifference(a', b');
      DifferAfter(q, a', b', diff);
      diff := After(q, diff);
    }
  }

  predicate HasLeadingZero(t: seq<Byte>) {
    |t| >= 2 && t[0] == ZERO
  }

  lemma ShorterRunIsSmaller(t: seq<Byte>, u: seq<Byte>)
    requires IsRun(t) && IsRun(u) && |t| < |u| && !HasLeadingZero(u)
    ensures Value(t) < Value(u)
  {
    ValueBounds(t);
    ValueBounds(u);
    Pow10Monotone(|t|, |u| - 1);
  }

  /** Runs written without leading zeros are ordered by the numbers they denote. */
  lemma RunOrderIsNumeric(t: seq<Byte>, u: seq<Byte>)
    requires IsRun(t) && IsRun(u) && !HasLeadingZero(t) && !HasLeadingZero(u)
    ensures TokenLess(t, u) <==> Value(t) < Value(u)
  {
    if |t| < |u| {
      ShorterRunIsSmaller(t, u);
    } else if |u| < |t| {
      ShorterRunIsSmaller(u, t);
    } else {
      SameLengthOrderIsNumeric(t, u);
    }
  }

  /** The promise "compared by numeric value" fails on leading zeros: "1" sorts before "01". */
  lemma LeadingZeroBreaksNumericOrder()
    ensures var one: seq<Byte> := [ZERO + 1]; var padded: seq<Byte> := [ZERO, ZERO + 1];
      TokenLess(one, padded) && Value(one) == Value(padded)
  {
    var padded: seq<Byte> := [ZERO, ZERO + 1];
    LeadingZeroCountsNothing(padded);
    assert padded[1..] == [ZERO + 1];
  }

  /** A run is ordered by value against every run exactly when it carries no leading zero,
      the other run being free of them as well. */
  lemma NumericOrderNeedsNoLeadingZero(u: seq<Byte>)
    requires IsRun(u)
    ensures (forall t :: IsRun(t) && !HasLeadingZero(t) ==> (TokenLess(t, u) <==> Value(t) < Value(u)))
            <==> !HasLeadingZero(u)
  {
    if HasLeadingZero(u) {
      var t := Stripped(u[1..]);
      LeadingZeroCountsNothing(u);
      assert Value(t) == Value(u);
      assert TokenLess(t, u);
    } else {
      forall t | IsRun(t) && !HasLeadingZero(t)
        ensures TokenLess(t, u) <==> Value(t) < Value(u)
      {
        RunOrderIsNumeric(t, u);
      }
    }
  }

  /** The canonical spelling of the same number. */
  function Stripped(t: seq<Byte>): (r: seq<Byte>)
    requires IsRun(t)
    ensures IsRun(r) && !HasLeadingZero(r)
    ensures Value(r) == Value(t) && |r| <= |t|
  {
    if HasLeadingZero(t) then
      LeadingZeroCountsNothing(t);
      Stripped(t[1..])
    else t
  }
}
