/** UTF-16 escapes of JSON strings and their UTF-8 form. */
module Utf {
  import opened Bytes

  const HIGH_SURROGATE: nat := 0xD800
  const LOW_SURROGATE: nat := 0xDC00
  const LAST_SURROGATE: nat := 0xDFFF
  const LETTER_U: byte := 0x75

  predicate IsHigh(unit: nat) {
    HIGH_SURROGATE <= unit < LOW_SURROGATE
  }

  predicate IsLow(unit: nat) {
    LOW_SURROGATE <= unit <= LAST_SURROGATE
  }

  /** A code point UTF-8 may carry: in range and not a surrogate. */
  predicate IsScalar(cp: nat) {
    cp < HIGH_SURROGATE || LAST_SURROGATE < cp <= 0x10FFFF
  }

  /** The encoding table of section 3 of RFC 3629. */
  function Encode(cp: nat): (r: bytes)
    requires cp <= 0x10FFFF
    ensures 1 <= |r| <= 4
  {
    if cp < 0x80 then [cp]
    else if cp < 0x800 then [0xC0 + cp / 0x40, 0x80 + cp % 0x40]
    else if cp < 0x10000 then [0xE0 + cp / 0x1000, 0x80 + cp / 0x40 % 0x40, 0x80 + cp % 0x40]
    else [0xF0 + cp / 0x40000, 0x80 + cp / 0x1000 % 0x40, 0x80 + cp / 0x40 % 0x40, 0x80 + cp % 0x40]
  }

  predicate IsTail(b: byte) {
    0x80 <= b <= 0xBF
  }

  /** The byte-sequence syntax of section 4 of RFC 3629, read as a decoder. */
  function Decode(b: bytes): Option<nat> {
    if |b| == 1 && b[0] <= 0x7F then
      Some(b[0])
    else if |b| == 2 && 0xC2 <= b[0] <= 0xDF && IsTail(b[1]) then
      Some((b[0] as int - 0xC0) * 0x40 + (b[1] as int - 0x80))
    else if |b| == 3 && 0xE0 <= b[0] <= 0xEF && IsTail(b[1]) && IsTail(b[2])
            && (b[0] == 0xE0 ==> 0xA0 <= b[1]) && (b[0] == 0xED ==> b[1] <= 0x9F) then
      Some((b[0] as int - 0xE0) * 0x1000 + (b[1] as int - 0x80) * 0x40 + (b[2] as int - 0x80))
    else if |b| == 4 && 0xF0 <= b[0] <= 0xF4 && IsTail(b[1]) && IsTail(b[2]) && IsTail(b[3])
            && (b[0] == 0xF0 ==> 0x90 <= b[1]) && (b[0] == 0xF4 ==> b[1] <= 0x8F) then
      Some((b[0] as int - 0xF0) * 0x40000 + (b[1] as int - 0x80) * 0x1000 + (b[2] as int - 0x80) * 0x40
        + (b[3] as int - 0x80))
    else
      None
  }

  lemma ThreeDigits(cp: nat)
    ensures cp == cp / 0x1000 * 0x1000 + cp / 0x40 % 0x40 * 0x40 + cp % 0x40
    ensures cp == cp / 0x40000 * 0x40000 + cp / 0x1000 % 0x40 * 0x1000 + cp / 0x40 % 0x40 * 0x40 + cp % 0x40
  {
    assert cp / 0x40 / 0x40 == cp / 0x1000;
    assert cp / 0x1000 / 0x40 == cp / 0x40000;
  }

  lemma DecodeOfEncode(cp: nat)
    requires IsScalar(cp)
    ensures Decode(Encode(cp)) == Some(cp)
  {
    ThreeDigits(cp);
  }

  /** What three base-64 digits come to, taken apart again. */
  lemma ThreeDigitsBack(a: nat, x: nat, y: nat)
    requires x < 0x40 && y < 0x40
    ensures var cp := a * 0x1000 + x * 0x40 + y; cp / 0x1000 == a && cp / 0x40 % 0x40 == x && cp % 0x40 == y
  {
    var cp := a * 0x1000 + x * 0x40 + y;
    assert cp / 0x40 == a * 0x40 + x;
  }

  lemma FourDigitsBack(a: nat, x: nat, y: nat, z: nat)
    requires x < 0x40 && y < 0x40 && z < 0x40
    ensures var cp := a * 0x40000 + x * 0x1000 + y * 0x40 + z;
            && cp / 0x40000 == a && cp / 0x1000 % 0x40 == x && cp / 0x40 % 0x40 == y && cp % 0x40 == z
  {
    var cp := a * 0x40000 + x * 0x1000 + y * 0x40 + z;
    assert cp == (a * 0x40 + x) * 0x1000 + y * 0x40 + z;
    ThreeDigitsBack(a * 0x40 + x, y, z);
    assert cp / 0x1000 == a * 0x40 + x;
    assert cp / 0x40000 == cp / 0x1000 / 0x40;
  }

  lemma EncodeOfThree(b: bytes)
    requires |b| == 3 && Decode(b).Some?
    ensures IsScalar(Decode(b).value) && Encode(Decode(b).value) == b
  {
    ThreeDigitsBack(b[0] - 0xE0, b[1] - 0x80, b[2] - 0x80);
  }

  lemma EncodeOfFour(b: bytes)
    requires |b| == 4 && Decode(b).Some?
    ensures IsScalar(Decode(b).value) && Encode(Decode(b).value) == b
  {
    FourDigitsBack(b[0] - 0xF0, b[1] - 0x80, b[2] - 0x80, b[3] - 0x80);
  }

  /** The other direction: a well-formed sequence is the encoding of the scalar it decodes to. */
  lemma EncodeOfDecode(b: bytes)
    requires Decode(b).Some?
    ensures IsScalar(Decode(b).value)
    ensures Encode(Decode(b).value) == b
  {
    if |b| == 3 {
      EncodeOfThree(b);
    } else if |b| == 4 {
      EncodeOfFour(b);
    }
  }

  // ---------------------------------------------------------------- \uXXXX

  function HexDigit(b: byte): (r: Option<nat>)
    ensures r.Some? ==> r.value < 16
  {
    if 0x30 <= b <= 0x39 then Some(b - 0x30)
    else if 0x41 <= b <= 0x46 then Some(10 + b - 0x41)
    else if 0x61 <= b <= 0x66 then Some(10 + b - 0x61)
    else None
  }

  /** The number written by the first `k` hexadecimal digits at `i`, most significant first. */
  function HexValue(c: bytes, i: nat, k: nat): (r: Option<nat>)
    requires i + k <= |c|
  {
    if k == 0 then Some(0)
    else
      var front := HexValue(c, i, k - 1);
      var last := HexDigit(c[i + k - 1]);
      if front.Some? && last.Some? then Some(16 * front.value + last.value) else None
  }

  lemma {:induction false} HexValueBound(c: bytes, i: nat, k: nat)
    requires i + k <= |c| && k <= 4 && HexValue(c, i, k).Some?
    ensures HexValue(c, i, k).value < (if k == 0 then 1 else if k == 1 then 0x10
                                       else if k == 2 then 0x100 else if k == 3 then 0x1000 else 0x10000)
  {
    if k > 0 { HexValueBound(c, i, k - 1); }
  }

  lemma {:induction false} HexValuePrefix(c: bytes, i: nat, j: nat, k: nat)
    requires j <= k && i + k <= |c| && HexValue(c, i, k).Some?
    ensures HexValue(c, i, j).Some?
  {
    if j < k { HexValuePrefix(c, i, j, k - 1); }
  }

  /** The value the parser gives four bytes: a non-hexadecimal byte makes it 0. */
  function Hex4(c: bytes, i: nat): (r: nat)
    requires i + 4 <= |c|
    ensures r < 0x10000
  {
    if HexValue(c, i, 4).Some? then (HexValueBound(c, i, 4); HexValue(c, i, 4).value) else 0
  }

  method ParseHex4(c: bytes, i: nat) returns (h: nat)
    requires i + 4 <= |c|
    ensures h == Hex4(c, i)
  {
    h := 0;
    var k := 0;
    while k < 4
      invariant 0 <= k <= 4
      invariant HexValue(c, i, k).Some?
      invariant h == HexValue(c, i, k).value * (if k == 0 || k == 4 then 1 else 16)
    {
      var b := c[i + k];
      if 0x30 <= b <= 0x39 {
        h := h + (b - 0x30);
      } else if 0x41 <= b <= 0x46 {
        h := h + (10 + b - 0x41);
      } else if 0x61 <= b <= 0x66 {
        h := h + (10 + b - 0x61);
      } else {
        if HexValue(c, i, 4).Some? { HexValuePrefix(c, i, k + 1, 4); }
        return 0;
      }
      if k < 3 {
        h := h * 16;
      }
      k := k + 1;
    }
  }

  /** The code point of a surrogate pair (section 3.9 of the Unicode Standard, table 3-5). */
  function PairCodePoint(high: nat, low: nat): (cp: nat)
    requires IsHigh(high) && IsLow(low)
    ensures 0x10000 <= cp <= 0x10FFFF
  {
    0x10000 + (high - HIGH_SURROGATE) * 0x400 + (low - LOW_SURROGATE)
  }

  /** Every supplementary code point has exactly one surrogate pair. */
  lemma PairIsUnique(h1: nat, l1: nat, h2: nat, l2: nat)
    requires IsHigh(h1) && IsLow(l1) && IsHigh(h2) && IsLow(l2)
    requires PairCodePoint(h1, l1) == PairCodePoint(h2, l2)
    ensures h1 == h2 && l1 == l2
  {
    var d1, d2 := h1 - HIGH_SURROGATE, h2 - HIGH_SURROGATE;
    assert (d1 - d2) * 0x400 == l2 - l1;
  }

  datatype Literal = Literal(codePoint: nat, length: nat)

  /** What the escape starting at `i` denotes, with `e` the end of the string literal's body. */
  function LiteralAt(c: bytes, i: nat, e: nat): (r: Option<Literal>)
    requires i <= e <= |c|
    ensures r.Some? ==> IsScalar(r.value.codePoint)
    ensures r.Some? ==> r.value.length in {6, 12} && i + r.value.length <= e
  {
    if e - i < 6 then None
    else
      var first := Hex4(c, i + 2);
      if IsLow(first) then None
      else if !IsHigh(first) then Some(Literal(first, 6))
      else if e - i < 12 || c[i + 6] != BACKSLASH || c[i + 7] != LETTER_U then None
      else
        var second := Hex4(c, i + 8);
        if !IsLow(second) then None
        else Some(Literal(PairCodePoint(first, second), 12))
  }

  /** The bytes of `cp` when `k` continuation bytes follow a first byte carrying `mark`. */
  function Shifted(cp: nat, k: nat, mark: nat): (r: seq<int>)
    ensures |r| == k + 1
  {
    if k == 0 then [mark + cp] else Shifted(cp / 0x40, k - 1, mark) + [0x80 + cp % 0x40]
  }

  lemma ShiftedIsEncode(cp: nat)
    requires cp <= 0x10FFFF
    ensures cp < 0x80 ==> Shifted(cp, 0, 0) == Encode(cp)
    ensures 0x80 <= cp < 0x800 ==> Shifted(cp, 1, 0xC0) == Encode(cp)
    ensures 0x800 <= cp < 0x10000 ==> Shifted(cp, 2, 0xE0) == Encode(cp)
    ensures 0x10000 <= cp ==> Shifted(cp, 3, 0xF0) == Encode(cp)
  {
    assert cp / 0x40 / 0x40 == cp / 0x1000;
    assert cp / 0x40 / 0x40 / 0x40 == cp / 0x40000;
    assert Shifted(cp / 0x40 / 0x40 / 0x40, 0, 0xF0) == [0xF0 + cp / 0x40000];
    assert Shifted(cp / 0x40 / 0x40, 0, 0xE0) == [0xE0 + cp / 0x1000];
    assert Shifted(cp / 0x40 / 0x40, 1, 0xF0) == [0xF0 + cp / 0x40000, 0x80 + cp / 0x1000 % 0x40];
  }

  /** The byte loop: continuation bytes from the last one back, then the first byte. */
  method WriteShifted(cp: nat, k: nat, mark: nat, out: array<byte>, w: nat)
    requires w + k < out.Length
    requires forall i :: 0 <= i <= k ==> 0 <= Shifted(cp, k, mark)[i] < 256
    modifies out
    ensures out[..w + k + 1] == old(out[..w]) + Shifted(cp, k, mark)
  {
    var rest: nat, pos := cp, k;
    while pos > 0
      invariant 0 <= pos <= k
      invariant Shifted(cp, k, mark) == Shifted(rest, pos, mark) + out[w + pos + 1..w + k + 1]
      invariant out[..w] == old(out[..w])
    {
      out[w + pos] := 0x80 + rest % 0x40;
      assert out[w + pos..w + k + 1] == [0x80 + rest % 0x40] + out[w + pos + 1..w + k + 1];
      rest := rest / 0x40;
      pos := pos - 1;
    }
    assert Shifted(cp, k, mark)[0] == mark + rest;
    out[w] := mark + rest;
    assert out[w..w + k + 1] == [mark + rest] + out[w + 1..w + k + 1];
    assert out[..w + k + 1] == out[..w] + out[w..w + k + 1];
  }

  /** The encoding half of the conversion: `cp` as UTF-8 at `out[w..]`. */
  method WriteUtf8(cp: nat, out: array<byte>, w: nat) returns (w': nat)
    requires cp <= 0x10FFFF && w + |Encode(cp)| <= out.Length
    modifies out
    ensures w' == w + |Encode(cp)|
    ensures out[..w'] == old(out[..w]) + Encode(cp)
  {
    ShiftedIsEncode(cp);
    if cp < 0x80 {
      WriteShifted(cp, 0, 0, out, w);
      return w + 1;
    } else if cp < 0x800 {
      WriteShifted(cp, 1, 0xC0, out, w);
      return w + 2;
    } else if cp < 0x10000 {
      WriteShifted(cp, 2, 0xE0, out, w);
      return w + 3;
    } else {
      WriteShifted(cp, 3, 0xF0, out, w);
      return w + 4;
    }
  }

  /** The decoding half: the code point of the escape at `i` and the length of the escape. */
  method DecodeLiteral(c: bytes, i: nat, e: nat) returns (r: Option<Literal>)
    requires i <= e <= |c|
    ensures r == LiteralAt(c, i, e)
  {
    if e - i < 6 {
      return None;
    }
    var first := ParseHex4(c, i + 2);
    if LOW_SURROGATE <= first <= LAST_SURROGATE {
      return None;
    }
    if HIGH_SURROGATE <= first < LOW_SURROGATE {
      if e - (i + 6) < 6 {
        return None;
      }
      if c[i + 6] != BACKSLASH || c[i + 7] != LETTER_U {
        return None;
      }
      var second := ParseHex4(c, i + 8);
      if second < LOW_SURROGATE || second > LAST_SURROGATE {
        return None;
      }
      return Some(Literal(0x10000 + (first % 0x400 * 0x400 + second % 0x400), 12));
    }
    return Some(Literal(first, 6));
  }

  /** Converts the escape at `i` and writes it at `out[w..]`; a zero `consumed` reports failure. */
  method Utf16LiteralToUtf8(c: bytes, i: nat, e: nat, out: array<byte>, w: nat)
    returns (consumed: nat, w': nat)
    requires i <= e <= |c| && w <= out.Length
    requires LiteralAt(c, i, e).Some? ==> w + |Encode(LiteralAt(c, i, e).value.codePoint)| <= out.Length
    modifies out
    ensures LiteralAt(c, i, e).None? ==> consumed == 0 && w' == w && out[..w] == old(out[..w])
    ensures LiteralAt(c, i, e).Some? ==>
              && consumed == LiteralAt(c, i, e).value.length
              && w' == w + |Encode(LiteralAt(c, i, e).value.codePoint)|
              && out[..w'] == old(out[..w]) + Encode(LiteralAt(c, i, e).value.codePoint)
  {
    var literal := DecodeLiteral(c, i, e);
    if literal.None? {
      return 0, w;
    }
    w' := WriteUtf8(literal.value.codePoint, out, w);
    consumed := literal.value.length;
  }

  /** An escape whose four characters are not all hexadecimal stands for NUL, which ends the C string. */
  lemma BadHexIsNul(c: bytes, i: nat, e: nat)
    requires i + 6 <= e <= |c| && HexValue(c, i + 2, 4).None?
    ensures LiteralAt(c, i, e) == Some(Literal(0, 6))
  {
  }

  /**
   * Written bytes decode to the code point of the escape: the code unit itself, or the pair's
   * code point. Unpaired surrogates are rejected.
   */
  lemma EscapeDecodes(c: bytes, i: nat, e: nat)
    requires i + 6 <= e <= |c|
    ensures var first, r := Hex4(c, i + 2), LiteralAt(c, i, e);
            && (IsScalar(first) ==> r.Some? && Decode(Encode(r.value.codePoint)) == Some(first))
            && (!IsScalar(first) ==>
                  (r.Some? <==> IsHigh(first) && i + 12 <= e && c[i + 6] == BACKSLASH && c[i + 7] == LETTER_U
                                && IsLow(Hex4(c, i + 8))))
            && (!IsScalar(first) && r.Some? ==>
                  Decode(Encode(r.value.codePoint)) == Some(PairCodePoint(first, Hex4(c, i + 8))))
  {
    if LiteralAt(c, i, e).Some? {
      DecodeOfEncode(LiteralAt(c, i, e).value.codePoint);
    }
  }
}
