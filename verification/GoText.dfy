/** The few functions of Go's `strings` package that the modelled code relies on, over Unicode
    scalar values. */
module GoText {
  datatype Option<+T> = None | Some(value: T)

  datatype Result<+R, +E> = Ok(value: R) | Err(error: E)

  /** `unicode.IsSpace`. */
  predicate IsSpace(c: char) {
    c == ' ' || '\U{9}' <= c <= '\U{d}' || c == '\U{85}' || c == '\U{a0}' || c == '\U{1680}' ||
    '\U{2000}' <= c <= '\U{200a}' || c == '\U{2028}' || c == '\U{2029}' || c == '\U{202f}' ||
    c == '\U{205f}' || c == '\U{3000}'
  }

  function TrimLeft(s: string): string {
    if s != "" && IsSpace(s[0]) then TrimLeft(s[1..]) else s
  }

  function TrimRight(s: string): string {
    if s != "" && IsSpace(s[|s| - 1]) then TrimRight(s[..|s| - 1]) else s
  }

  /** `strings.TrimSpace`. */
  function TrimSpace(s: string): string {
    TrimRight(TrimLeft(s))
  }

  predicate AllSpace(s: string) {
    forall k :: 0 <= k < |s| ==> IsSpace(s[k])
  }

  /** `s` without the blanks around it is `s[i..j]`. */
  predicate TrimsAt(s: string, i: nat, j: nat) {
    && i <= j <= |s| && AllSpace(s[..i]) && AllSpace(s[j..])
    && (i < j ==> !IsSpace(s[i]) && !IsSpace(s[j - 1]))
  }

  lemma {:induction false} TrimLeftIs(s: string) returns (i: nat)
    ensures i <= |s| && AllSpace(s[..i]) && (i < |s| ==> !IsSpace(s[i])) && TrimLeft(s) == s[i..]
  {
    if s != "" && IsSpace(s[0]) {
      i := TrimLeftIs(s[1..]);
      i := i + 1;
      assert forall k :: 1 <= k < i ==> s[..i][k] == s[1..][..i - 1][k - 1];
    } else {
      i := 0;
    }
  }

  lemma {:induction false} TrimRightIs(s: string) returns (j: nat)
    ensures j <= |s| && AllSpace(s[j..]) && (j > 0 ==> !IsSpace(s[j - 1])) && TrimRight(s) == s[..j]
  {
    if s != "" && IsSpace(s[|s| - 1]) {
      j := TrimRightIs(s[..|s| - 1]);
      assert forall k :: j <= k < |s| - 1 ==> s[k] == s[..|s| - 1][j..][k - j];
    } else {
      j := |s|;
    }
  }

  lemma TrimSpaceIs(s: string) returns (i: nat, j: nat)
    ensures TrimsAt(s, i, j) && TrimSpace(s) == s[i..j]
  {
    i := TrimLeftIs(s);
    j := TrimRightIs(s[i..]);
    j := i + j;
    assert s[i..][..j - i] == s[i..j] && s[i..][j - i..] == s[j..];
  }

  /** `TrimSpace` drops exactly the blanks around the text. */
  lemma TrimSpaceExactly(s: string, i: nat, j: nat)
    requires TrimsAt(s, i, j)
    ensures TrimSpace(s) == s[i..j]
  {
    var k, l := TrimSpaceIs(s);
    assert forall n :: 0 <= n < i ==> IsSpace(s[n]) by {
      assert forall n :: 0 <= n < i ==> s[..i][n] == s[n];
    }
    assert forall n :: j <= n < |s| ==> IsSpace(s[n]) by {
      assert forall n :: j <= n < |s| ==> s[j..][n - j] == s[n];
    }
    assert forall n :: 0 <= n < k ==> IsSpace(s[n]) by {
      assert forall n :: 0 <= n < k ==> s[..k][n] == s[n];
    }
    assert forall n :: l <= n < |s| ==> IsSpace(s[n]) by {
      assert forall n :: l <= n < |s| ==> s[l..][n - l] == s[n];
    }
    if i < j {
      assert k <= i && j <= l;
    }
  }

  function LowerChar(c: char): char {
    if 'A' <= c <= 'Z' then ((c as int) + 32) as char else c
  }

  const UPPER: string := "ABCDEFGHIJKLMNOPQRSTUVWXYZ"
  const LOWER: string := "abcdefghijklmnopqrstuvwxyz"

  lemma LowerCharExactly(c: char)
    ensures forall k :: 0 <= k < 26 ==> LowerChar(UPPER[k]) == LOWER[k]
    ensures c !in UPPER ==> LowerChar(c) == c
  {
    if 'A' <= c <= 'Z' {
      var k := c as int - 'A' as int;
      assert UPPER[k] == c;
    }
  }

  /** `strings.ToLower`, on ASCII letters. */
  function ToLower(s: string): (r: string)
    ensures |r| == |s|
  {
    if s == "" then "" else [LowerChar(s[0])] + ToLower(s[1..])
  }

  lemma {:induction false} ToLowerAt(s: string, i: nat)
    requires i < |s|
    ensures ToLower(s)[i] == LowerChar(s[i])
  {
    if i > 0 {
      ToLowerAt(s[1..], i - 1);
    }
  }

  /** `strings.EqualFold`, on ASCII letters. */
  predicate EqualFold(s: string, t: string) {
    |s| == |t| && forall i :: 0 <= i < |s| ==> LowerChar(s[i]) == LowerChar(t[i])
  }

  /** `strings.Split(s, ",")`. */
  function SplitComma(s: string): (parts: seq<string>)
    ensures parts != []
  {
    if s == "" then [""]
    else
      var rest := SplitComma(s[1..]);
      if s[0] == ',' then [""] + rest else [[s[0]] + rest[0]] + rest[1..]
  }

  /** `s[a..b]` is free of commas and stands between commas or the ends of `s`. */
  predicate BetweenCommas(s: string, a: nat, b: nat) {
    a <= b <= |s| && ',' !in s[a..b] && (a == 0 || s[a - 1] == ',') && (b == |s| || s[b] == ',')
  }

  lemma {:induction false} BetweenCommasIsPart(s: string, a: nat, b: nat) returns (i: nat)
    requires BetweenCommas(s, a, b)
    ensures i < |SplitComma(s)| && SplitComma(s)[i] == s[a..b] && (i == 0 <==> a == 0)
  {
    if s == "" {
      i := 0;
    } else if a == 0 && s[0] == ',' {
      i := 0;
    } else {
      var a', b' := if a == 0 then 0 else a - 1, b - 1;
      assert a' == 0 ==> a <= 1;
      assert a == 0 ==> s[a..b] == [s[0]] + s[1..][a'..b'];
      assert a > 0 ==> s[a..b] == s[1..][a'..b'];
      i := BetweenCommasIsPart(s[1..], a', b');
      if s[0] == ',' {
        i := i + 1;
      }
    }
  }

  lemma {:induction false} PartIsBetweenCommas(s: string, i: nat) returns (a: nat, b: nat)
    requires i < |SplitComma(s)|
    ensures BetweenCommas(s, a, b) && SplitComma(s)[i] == s[a..b] && (i == 0 <==> a == 0)
  {
    if s == "" || (s[0] == ',' && i == 0) {
      a, b := 0, 0;
    } else {
      a, b := PartIsBetweenCommas(s[1..], if s[0] == ',' then i - 1 else i);
      if i == 0 {
        assert s[..b + 1] == [s[0]] + s[1..][..b];
        b := b + 1;
      } else {
        assert s[a + 1..b + 1] == s[1..][a..b];
        a, b := a + 1, b + 1;
      }
    }
  }

  /** The decimal digit for `n`. */
  function Digit(n: nat): char
    requires n < 10
  {
    (('0' as int) + n) as char
  }
}
