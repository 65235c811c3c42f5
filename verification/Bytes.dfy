/** Bytes, the ASCII codes the wire formats use, and text occurring inside a larger text. */
module Bytes {
  type byte = b: int | 0 <= b < 256
  type bytes = seq<byte>

  datatype Option<+T> = None | Some(value: T)

  ghost predicate NoRepeats<T(!new)>(s: seq<T>) {
    forall i, j :: 0 <= i < j < |s| ==> s[i] != s[j]
  }

  /** The elements of `s` from index `i` on. */
  function From<T>(s: seq<T>, i: nat): seq<T>
    decreases |s| - i
  {
    if i >= |s| then [] else if i + 1 == |s| then [s[i]] else [s[i]] + From(s, i + 1)
  }

  lemma {:induction false} FromIsSuffix<T>(s: seq<T>, i: nat)
    requires i <= |s|
    ensures From(s, i) == s[i..]
    decreases |s| - i
  {
    if i < |s| { FromIsSuffix(s, i + 1); }
  }

  lemma AppendAssociates(a: bytes, b: bytes, c: bytes)
    ensures (a + b) + c == a + (b + c)
  {
  }

  lemma OneMore(done: seq<bytes>, text: bytes, rest: seq<bytes>)
    ensures done + ([text] + rest) == (done + [text]) + rest
  {
  }

  const NUL: byte := 0
  const TAB: byte := 9
  const LF: byte := 10
  const CR: byte := 13
  const SPACE: byte := 32
  const QUOTE: byte := 0x22
  const PLUS: byte := 0x2B
  const COMMA: byte := 0x2C
  const MINUS: byte := 0x2D
  const DOT: byte := 0x2E
  const SLASH: byte := 0x2F
  const COLON: byte := 0x3A
  const LBRACKET: byte := 0x5B
  const BACKSLASH: byte := 0x5C
  const RBRACKET: byte := 0x5D
  const UNDERSCORE: byte := 0x5F
  const LBRACE: byte := 0x7B
  const RBRACE: byte := 0x7D

  predicate IsDigit(b: byte) {
    0x30 <= b <= 0x39
  }

  /** ASCII lower-casing, as `lower` in the framing code and strncasecmp do it. */
  function Lower(b: byte): byte {
    if 0x41 <= b <= 0x5A then b + 0x20 else b
  }

  /** From index `k` on, `t` agrees with what lies in `c` from `o` on. */
  predicate AgreesFrom(c: bytes, o: nat, t: bytes, k: nat)
    decreases |t| - k
  {
    k >= |t| || (o + k < |c| && c[o + k] == t[k] && AgreesFrom(c, o, t, k + 1))
  }

  /** `t` occurs in `c` starting at index `o`, as strncmp compares. */
  predicate TextAt(c: bytes, o: nat, t: bytes) {
    o + |t| <= |c| && AgreesFrom(c, o, t, 0)
  }

  lemma {:induction false} AgreesAt(c: bytes, o: nat, t: bytes, k: nat, j: nat)
    requires AgreesFrom(c, o, t, k) && k <= j < |t|
    ensures o + j < |c| && c[o + j] == t[j]
    decreases |t| - k
  {
    if k < j { AgreesAt(c, o, t, k + 1, j); }
  }

  lemma {:induction false} AgreesIf(c: bytes, o: nat, t: bytes, k: nat)
    requires o + |t| <= |c| && forall j :: k <= j < |t| ==> c[o + j] == t[j]
    ensures AgreesFrom(c, o, t, k)
    decreases |t| - k
  {
    if k < |t| { AgreesIf(c, o, t, k + 1); }
  }

  lemma TextAtByte(c: bytes, o: nat, t: bytes, k: nat)
    requires TextAt(c, o, t) && k < |t|
    ensures o + k < |c| && c[o + k] == t[k]
  {
    AgreesAt(c, o, t, 0, k);
  }

  lemma TextAtSplit(c: bytes, o: nat, s: bytes, t: bytes)
    requires TextAt(c, o, s + t)
    ensures TextAt(c, o, s)
    ensures TextAt(c, o + |s|, t)
  {
    forall k | 0 <= k < |s| ensures c[o + k] == s[k] {
      AgreesAt(c, o, s + t, 0, k);
    }
    forall k | 0 <= k < |t| ensures c[o + |s| + k] == t[k] {
      AgreesAt(c, o, s + t, 0, |s| + k);
      assert (s + t)[|s| + k] == t[k];
    }
    AgreesIf(c, o, s, 0);
    AgreesIf(c, o + |s|, t, 0);
  }

  lemma TextAtSlice(c: bytes, o: nat, t: bytes)
    ensures TextAt(c, o, t) <==> o + |t| <= |c| && c[o..o + |t|] == t
  {
    if TextAt(c, o, t) {
      forall k | 0 <= k < |t| ensures c[o..o + |t|][k] == t[k] {
        AgreesAt(c, o, t, 0, k);
      }
    } else if o + |t| <= |c| && c[o..o + |t|] == t {
      forall k | 0 <= k < |t| ensures c[o + k] == t[k] {
        assert c[o..o + |t|][k] == t[k];
      }
      AgreesIf(c, o, t, 0);
    }
  }

  /** The C string held in `s`: everything before the first NUL. */
  function CString(s: bytes): (r: bytes)
    ensures NUL !in r && r <= s
    ensures |r| < |s| ==> s[|r|] == NUL
  {
    if |s| == 0 || s[0] == NUL then [] else [s[0]] + CString(s[1..])
  }

  lemma {:induction false} CStringWhole(s: bytes)
    requires NUL !in s
    ensures CString(s) == s
  {
    if s != [] { CStringWhole(s[1..]); }
  }
}
