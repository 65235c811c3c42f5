/** Decimal text of integers: what `%zu`, `%llu` and `%d` print, and the value of a digit string. */
module Decimal {
  import opened Bytes

  function Digits(n: nat): (r: bytes)
    ensures 0 < |r|
    ensures forall i :: 0 <= i < |r| ==> IsDigit(r[i])
  {
    if n < 10 then [0x30 + n] else Digits(n / 10) + [0x30 + n % 10]
  }

  /** The number written by the digits `s[i..e]`. */
  function Value(s: bytes, i: nat, e: nat): nat
    requires i <= e <= |s| && forall k :: i <= k < e ==> IsDigit(s[k])
    decreases e - i
  {
    if i == e then 0
    else
      assert IsDigit(s[e - 1]);
      Value(s, i, e - 1) * 10 + (s[e - 1] as int - 0x30)
  }

  /** End of the digits that start at `i`, not past `e`. */
  function DigitsEnd(c: bytes, i: nat, e: nat): (r: nat)
    requires i <= e <= |c|
    ensures i <= r <= e
    decreases e - i
  {
    if i < e && IsDigit(c[i]) then DigitsEnd(c, i + 1, e) else i
  }

  lemma {:induction false} DigitsEndSpans(c: bytes, i: nat, e: nat)
    requires i <= e <= |c|
    ensures forall k :: i <= k < DigitsEnd(c, i, e) ==> IsDigit(c[k])
    decreases e - i
  {
    if i < e && IsDigit(c[i]) { DigitsEndSpans(c, i + 1, e); }
  }

  lemma DigitsInPlace(s: bytes, i: nat, n: nat)
    requires i + |Digits(n)| <= |s| && s[i..i + |Digits(n)|] == Digits(n)
    ensures forall k :: i <= k < i + |Digits(n)| ==> IsDigit(s[k])
  {
    var t := Digits(n);
    forall k | i <= k < i + |t| ensures IsDigit(s[k]) {
      assert s[i..i + |t|][k - i] == s[k] && IsDigit(t[k - i]);
    }
  }

  /** One more digit in place. */
  lemma ValueGrows(s: bytes, i: nat, e: nat, v: nat, d: nat)
    requires i <= e < |s| && (forall k :: i <= k <= e ==> IsDigit(s[k])) && Value(s, i, e) == v && s[e] == 0x30 + d
    ensures Value(s, i, e + 1) == 10 * v + d
  {
  }

  /** Reading back what `%zu` prints, wherever it was printed, gives the number printed. */
  lemma {:induction false} ValueOfDigits(s: bytes, i: nat, n: nat)
    requires i + |Digits(n)| <= |s| && s[i..i + |Digits(n)|] == Digits(n)
    ensures forall k :: i <= k < i + |Digits(n)| ==> IsDigit(s[k])
    ensures Value(s, i, i + |Digits(n)|) == n
  {
    var t := Digits(n);
    DigitsInPlace(s, i, n);
    assert s[i + |t| - 1] == s[i..i + |t|][|t| - 1] == 0x30 + n % 10;
    if n >= 10 {
      var e := i + |t| - 1;
      assert s[i..e] == t[..|t| - 1] == Digits(n / 10);
      ValueOfDigits(s, i, n / 10);
      ValueGrows(s, i, e, n / 10, n % 10);
    } else {
      ValueGrows(s, i, i, 0, n);
    }
  }

  /** A number below 10^k prints in at most k digits. */
  lemma {:induction false} DigitsLength(n: nat, k: nat)
    requires 0 < k && n < Pow10(k)
    ensures |Digits(n)| <= k
  {
    if n >= 10 {
      assert Pow10(k) == 10 * Pow10(k - 1) && Pow10(0) == 1;
      assert n / 10 < Pow10(k - 1);
      DigitsLength(n / 10, k - 1);
    }
  }

  function Pow10(k: nat): (r: nat)
    ensures 0 < r
  {
    if k == 0 then 1 else 10 * Pow10(k - 1)
  }

  /** Distinct numbers print as distinct texts. */
  lemma DigitsInjective(m: nat, n: nat)
    requires Digits(m) == Digits(n)
    ensures m == n
  {
    assert Digits(m)[0..0 + |Digits(m)|] == Digits(m);
    ValueOfDigits(Digits(m), 0, m);
    ValueOfDigits(Digits(m), 0, n);
  }

  /** `%d` of a signed integer. */
  function Signed(n: int): (r: bytes)
    ensures 0 < |r|
    ensures IsDigit(r[0]) || r[0] == MINUS
  {
    if n < 0 then [MINUS] + Digits(-n) else Digits(n)
  }
}
