/** Names of aggregated apps: slugs, sticky prefixes, and tool names that route back. */
module AppNames {
  import opened Bytes
  import Decimal

  const DASH: byte := MINUS
  const SLUG_LIMIT: nat := 32
  const APP: bytes := [0x61, 0x70, 0x70]
  const LETTER_X: byte := 0x78

  predicate IsAlnum(b: byte) {
    0x61 <= b <= 0x7A || IsDigit(b)
  }

  /** The server's rule for app ids: a letter or digit, then up to 31 letters, digits or dashes. */
  predicate AppIdValid(id: bytes) {
    && 0 < |id| <= SLUG_LIMIT
    && IsAlnum(id[0])
    && forall i :: 0 <= i < |id| ==> IsAlnum(id[i]) || id[i] == DASH
  }

  /** `app_id_valid` on a C string. */
  method CheckAppId(id: bytes) returns (ok: bool)
    ensures ok == AppIdValid(id)
  {
    if id == [] || |id| > SLUG_LIMIT {
      return false;
    }
    var i := 0;
    while i < |id|
      invariant i <= |id|
      invariant i > 0 ==> IsAlnum(id[0])
      invariant forall k :: 0 <= k < i ==> IsAlnum(id[k]) || id[k] == DASH
    {
      var alnum := IsAlnum(id[i]);
      if (if i == 0 then !alnum else !(alnum || id[i] == DASH)) {
        return false;
      }
      i := i + 1;
    }
    return true;
  }

  // ---------------------------------------------------------------- slugs

  /** One input byte: letters and digits are kept in lower case, any run of others gives one dash. */
  function SlugStep(out: bytes, b: byte): bytes {
    if IsAlnum(Lower(b)) then out + [Lower(b)]
    else if out != [] && out[|out| - 1] != DASH then out + [DASH]
    else out
  }

  /** The slug so far, `out`, continued with the C string at `s[i..]`. */
  function SlugFrom(s: bytes, i: nat, out: bytes): bytes
    decreases |s| - i
  {
    if i >= |s| || s[i] == NUL || |out| >= SLUG_LIMIT then out else SlugFrom(s, i + 1, SlugStep(out, s[i]))
  }

  function DropDashes(out: bytes): (r: bytes)
    ensures r <= out && (r != [] ==> r[|r| - 1] != DASH)
  {
    if out != [] && out[|out| - 1] == DASH then DropDashes(out[..|out| - 1]) else out
  }

  function Slug(s: bytes): bytes {
    var out := DropDashes(SlugFrom(s, 0, []));
    if out == [] then APP else out
  }

  /** One turn of the copying loop of `slugify`. */
  method PutSlugByte(out: array<byte>, n: nat, b: byte) returns (n': nat)
    requires n < out.Length
    modifies out
    ensures n' <= n + 1 && out[..n'] == SlugStep(old(out[..n]), b)
  {
    n' := n;
    if IsAlnum(Lower(b)) {
      out[n] := Lower(b);
      n' := n + 1;
    } else if n > 0 && out[n - 1] != DASH {
      out[n] := DASH;
      n' := n + 1;
    }
    if n' > n { assert out[..n'] == out[..n] + [out[n]]; }
  }

  /** `slugify` into a buffer of 40 bytes; the result is the C string left there. */
  method Slugify(s: bytes) returns (slug: bytes)
    ensures slug == Slug(s) && IsSlugOf(s, slug)
  {
    hide IsSlugOf;
    SlugIff(s, Slug(s));
    var out := new byte[40];
    var n: nat, i: nat := 0, 0;
    assert out[..n] == [];
    while i < |s| && s[i] != NUL && n + 1 < out.Length && n < SLUG_LIMIT
      invariant n <= SLUG_LIMIT && i <= |s|
      invariant SlugFrom(s, 0, []) == SlugFrom(s, i, out[..n])
    {
      n := PutSlugByte(out, n, s[i]);
      i := i + 1;
    }
    while n > 0 && out[n - 1] == DASH
      invariant n <= SLUG_LIMIT
      invariant DropDashes(SlugFrom(s, 0, [])) == DropDashes(out[..n])
    {
      assert out[..n][..n - 1] == out[..n - 1];
      n := n - 1;
    }
    slug := out[..n];
    if slug == [] {
      slug := APP;
    }
  }

  /** What a slug in the making looks like. */
  predicate SlugLike(out: bytes) {
    && |out| <= SLUG_LIMIT
    && (out != [] ==> IsAlnum(out[0]))
    && (forall i :: 0 <= i < |out| ==> IsAlnum(out[i]) || out[i] == DASH)
    && (forall i :: 0 < i < |out| && out[i] == DASH ==> out[i - 1] != DASH)
  }

  lemma {:induction false} SlugFromIsSlugLike(s: bytes, i: nat, out: bytes)
    requires SlugLike(out)
    ensures SlugLike(SlugFrom(s, i, out))
    decreases |s| - i
  {
    if !(i >= |s| || s[i] == NUL || |out| >= SLUG_LIMIT) {
      SlugFromIsSlugLike(s, i + 1, SlugStep(out, s[i]));
    }
  }

  /** Every slug is an app id the server would accept. */
  lemma SlugIsValid(s: bytes)
    ensures AppIdValid(Slug(s)) && SlugLike(Slug(s)) && Slug(s)[|Slug(s)| - 1] != DASH
  {
    SlugFromIsSlugLike(s, 0, []);
  }

  lemma {:induction false} SlugKeeps(s: bytes, i: nat)
    requires SlugLike(s) && i <= |s|
    ensures SlugFrom(s, i, s[..i]) == s
    decreases |s| - i
  {
    if i < |s| {
      assert s[..i] + [s[i]] == s[..i + 1];
      SlugKeeps(s, i + 1);
    } else {
      assert s[..i] == s;
    }
  }

  /** Slugs are their own slugs. */
  lemma SlugIsIdempotent(s: bytes)
    ensures Slug(Slug(s)) == Slug(s)
  {
    SlugIsValid(s);
    SlugKeeps(Slug(s), 0);
    assert Slug(s)[..0] == [];
  }

  // ---------------------------------------------------------------- a slug in terms of what it is made from

  predicate IsLetterOrDigit(b: byte) {
    0x41 <= b <= 0x5A || 0x61 <= b <= 0x7A || 0x30 <= b <= 0x39
  }

  /** Capitals in lower case. */
  function Small(b: byte): byte {
    if 0x41 <= b <= 0x5A then b + 0x20 else b
  }

  /** The bytes of `c` at these places in lower case, with one dash between two that are no neighbours. */
  function Spelled(c: bytes, at: seq<nat>): bytes
    requires forall j :: 0 <= j < |at| ==> at[j] < |c|
  {
    if at == [] then []
    else
      var m := |at| - 1;
      Spelled(c, at[..m]) + (if m > 0 && at[m - 1] + 1 < at[m] then [DASH] else []) + [Small(c[at[m]])]
  }

  /** Places of letters and digits of `c`, in order. */
  ghost predicate ArePlaces(c: bytes, at: seq<nat>) {
    && (forall j :: 0 <= j < |at| ==> at[j] < |c| && IsLetterOrDigit(c[at[j]]))
    && (forall i, j :: 0 <= i < j < |at| ==> at[i] < at[j])
  }

  /** They are as many as fit into 32 bytes: all, or the first ones, with the next one too many. */
  ghost predicate AreFitting(c: bytes, at: seq<nat>) {
    && ArePlaces(c, at) && |Spelled(c, at)| <= 32
    && forall p: nat :: p < |c| && IsLetterOrDigit(c[p]) && p !in at ==>
         at != [] && at[|at| - 1] < p && |Spelled(c, at + [p])| > 32
  }

  /** The letters and digits of the C string, in lower case, one dash for whatever lies between two; else "app". */
  ghost predicate IsSlugOf(s: bytes, slug: bytes) {
    exists at :: AreFitting(CString(s), at)
                 && slug == if at == [] then [0x61, 0x70, 0x70] else Spelled(CString(s), at)
  }

  lemma SpelledMore(c: bytes, at: seq<nat>, p: nat)
    requires (forall j :: 0 <= j < |at| ==> at[j] < |c|) && p < |c|
    ensures Spelled(c, at + [p]) ==
            Spelled(c, at) + (if at != [] && at[|at| - 1] + 1 < p then [DASH] else []) + [Small(c[p])]
  {
    assert (at + [p])[..|at|] == at;
  }

  lemma SpelledEnds(c: bytes, at: seq<nat>)
    requires ArePlaces(c, at) && at != []
    ensures Spelled(c, at) != [] && Spelled(c, at)[|Spelled(c, at)| - 1] != DASH
  {
  }

  /** What has been written when byte `i` is looked at: the places so far, and a dash if others followed. */
  ghost predicate Written(c: bytes, i: nat, out: bytes, at: seq<nat>) {
    && i <= |c| && ArePlaces(c, at) && |out| <= 32
    && (forall j :: 0 <= j < |at| ==> at[j] < i)
    && (forall p: nat :: p < i && IsLetterOrDigit(c[p]) ==> p in at)
    && out == Spelled(c, at) + if at != [] && at[|at| - 1] + 1 < i then [DASH] else []
  }

  /** Nothing more is written: all is looked at, or 32 bytes are full. */
  lemma WrittenAll(c: bytes, i: nat, out: bytes, at: seq<nat>)
    requires Written(c, i, out, at) && (i == |c| || |out| == 32)
    ensures AreFitting(c, at)
  {
    forall p: nat | p < |c| && IsLetterOrDigit(c[p]) && p !in at
      ensures at != [] && at[|at| - 1] < p && |Spelled(c, at + [p])| > 32
    {
      assert p >= i;
      SpelledMore(c, at, p);
    }
  }

  lemma LetterWritten(c: bytes, i: nat, out: bytes, at: seq<nat>)
    requires Written(c, i, out, at) && i < |c| && |out| < 32 && IsLetterOrDigit(c[i])
    ensures Written(c, i + 1, SlugStep(out, c[i]), at + [i])
  {
    SpelledMore(c, at, i);
    hide Spelled, IsLetterOrDigit;
    assert IsAlnum(Lower(c[i])) && Lower(c[i]) == Small(c[i]) by { LetterIs(c[i]); }
  }

  lemma LetterIs(b: byte)
    ensures IsLetterOrDigit(b) <==> IsAlnum(Lower(b))
    ensures Lower(b) == Small(b)
  {
  }

  lemma OtherWritten(c: bytes, i: nat, out: bytes, at: seq<nat>)
    requires Written(c, i, out, at) && i < |c| && |out| < 32 && !IsLetterOrDigit(c[i])
    ensures Written(c, i + 1, SlugStep(out, c[i]), at)
  {
    LetterIs(c[i]);
    if at != [] { SpelledEnds(c, at); } else { assert Spelled(c, at) == []; }
    hide Spelled, IsLetterOrDigit, IsAlnum;
  }

  lemma WrittenNext(c: bytes, i: nat, out: bytes, at: seq<nat>) returns (at': seq<nat>)
    requires Written(c, i, out, at) && i < |c| && |out| < 32
    ensures Written(c, i + 1, SlugStep(out, c[i]), at')
  {
    hide Written, SlugStep;
    if IsLetterOrDigit(c[i]) {
      LetterWritten(c, i, out, at);
      at' := at + [i];
    } else {
      OtherWritten(c, i, out, at);
      at' := at;
    }
  }

  lemma {:induction false} SlugWrites(s: bytes, c: bytes, i: nat, out: bytes, at: seq<nat>)
      returns (j: nat, at': seq<nat>)
    requires c == CString(s) && Written(c, i, out, at)
    ensures Written(c, j, SlugFrom(s, i, out), at') && AreFitting(c, at')
    decreases |s| - i
  {
    hide Written, AreFitting, SlugStep;
    InCString(c, i, out, at);
    if i == |c| || |out| == 32 {
      WrittenAll(c, i, out, at);
      j, at' := i, at;
    } else {
      var next := WrittenNext(c, i, out, at);
      assert s[i] == c[i];
      j, at' := SlugWrites(s, c, i + 1, SlugStep(out, s[i]), next);
    }
  }

  lemma InCString(c: bytes, i: nat, out: bytes, at: seq<nat>)
    requires Written(c, i, out, at)
    ensures i <= |c| && |out| <= 32
  {
  }

  lemma DashDropped(c: bytes, i: nat, out: bytes, at: seq<nat>)
    requires Written(c, i, out, at)
    ensures DropDashes(out) == Spelled(c, at)
  {
    if at != [] {
      SpelledEnds(c, at);
      if at[|at| - 1] + 1 < i { assert out[..|out| - 1] == Spelled(c, at); }
    }
  }

  /** Letter by letter the same places. */
  lemma {:induction false} SamePlaces(c: bytes, a: seq<nat>, b: seq<nat>, n: nat)
    requires AreFitting(c, a) && AreFitting(c, b) && n <= |a| && n <= |b|
    ensures forall k :: 0 <= k < n ==> a[k] == b[k]
  {
    hide AreFitting;
    if n > 0 {
      SamePlaces(c, a, b, n - 1);
      PlaceIs(c, a, b, n - 1);
      PlaceIs(c, b, a, n - 1);
    }
  }

  lemma Fitting(c: bytes, at: seq<nat>)
    requires AreFitting(c, at)
    ensures ArePlaces(c, at) && |Spelled(c, at)| <= 32
  {
  }

  lemma LeftOut(c: bytes, at: seq<nat>, p: nat)
    requires AreFitting(c, at) && p < |c| && IsLetterOrDigit(c[p]) && p !in at
    ensures at != [] && at[|at| - 1] < p && |Spelled(c, at + [p])| > 32
  {
  }

  lemma Ordered(c: bytes, at: seq<nat>, i: nat, j: nat)
    requires ArePlaces(c, at) && i < j < |at|
    ensures at[i] < at[j]
  {
  }

  lemma IsLetterAt(c: bytes, at: seq<nat>, j: nat)
    requires ArePlaces(c, at) && j < |at|
    ensures at[j] < |c| && IsLetterOrDigit(c[at[j]])
  {
  }

  /** No place is left out. */
  lemma PlaceIs(c: bytes, a: seq<nat>, b: seq<nat>, n: nat)
    requires AreFitting(c, a) && AreFitting(c, b) && n < |a| && n < |b| && forall k :: 0 <= k < n ==> a[k] == b[k]
    ensures b[n] <= a[n]
  {
    hide AreFitting, ArePlaces, Spelled, IsLetterOrDigit;
    Fitting(c, a);
    Fitting(c, b);
    if a[n] < b[n] {
      var p := a[n];
      IsLetterAt(c, a, n);
      forall j | 0 <= j < |b| ensures b[j] != p {
        if j < n { Ordered(c, a, j, n); } else if j > n { Ordered(c, b, n, j); }
      }
      if n < |b| - 1 { Ordered(c, b, n, |b| - 1); }
      LeftOut(c, b, p);
    }
  }

  lemma {:induction false} SpelledGrows(c: bytes, at: seq<nat>, n: nat)
    requires n <= |at| && forall j :: 0 <= j < |at| ==> at[j] < |c|
    ensures |Spelled(c, at[..n])| <= |Spelled(c, at)|
    decreases |at|
  {
    if n < |at| {
      SpelledGrows(c, at[..|at| - 1], n);
      assert at[..|at| - 1][..n] == at[..n];
    } else {
      assert at[..n] == at;
    }
  }

  lemma FittingIsUnique(c: bytes, a: seq<nat>, b: seq<nat>)
    requires AreFitting(c, a) && AreFitting(c, b) && |a| <= |b|
    ensures a == b
  {
    Fitting(c, b);
    SamePlaces(c, a, b, |a|);
    hide AreFitting, ArePlaces, Spelled, IsLetterOrDigit;
    if |a| < |b| {
      var n := |a|;
      IsLetterAt(c, b, n);
      forall j | 0 <= j < n ensures a[j] != b[n] { Ordered(c, b, j, n); }
      LeftOut(c, a, b[n]);
      assert b[..n + 1] == a + [b[n]];
      InBounds(c, b);
      SpelledGrows(c, b, n + 1);
    }
  }

  lemma InBounds(c: bytes, at: seq<nat>)
    requires ArePlaces(c, at)
    ensures forall j :: 0 <= j < |at| ==> at[j] < |c|
  {
  }

  /** Exactly this is a string's slug. */
  lemma SlugIff(s: bytes, slug: bytes)
    ensures slug == Slug(s) <==> IsSlugOf(s, slug)
  {
    var c := CString(s);
    assert Written(c, 0, [], []);
    var j, at := SlugWrites(s, c, 0, [], []);
    DashDropped(c, j, SlugFrom(s, 0, []), at);
    if at != [] { SpelledEnds(c, at); }
    assert IsSlugOf(s, Slug(s));
    forall other | AreFitting(c, other) ensures other == at {
      if |other| <= |at| { FittingIsUnique(c, other, at); } else { FittingIsUnique(c, at, other); }
    }
  }

  // ---------------------------------------------------------------- sticky prefixes

  const LAST_SUFFIX: nat := 99
  const MAX_PREFIXES: nat := 128

  /** The names tried for `desired`: the bare name, then -2 to -99. */
  function Candidate(desired: bytes, n: nat): bytes {
    if n <= 1 then desired else desired + [DASH] + Decimal.Digits(n)
  }

  function Fallback(desired: bytes): bytes {
    desired + [DASH, LETTER_X]
  }

  /** The number of the first free candidate from `n` on, or 100. */
  function FirstFree(used: seq<bytes>, desired: bytes, n: nat): (r: nat)
    requires n <= LAST_SUFFIX + 1
    ensures n <= r <= LAST_SUFFIX + 1
    ensures r <= LAST_SUFFIX ==> Candidate(desired, r) !in used
    decreases LAST_SUFFIX + 1 - n
  {
    if n <= LAST_SUFFIX && Candidate(desired, n) in used then FirstFree(used, desired, n + 1) else n
  }

  function Assigned(used: seq<bytes>, desired: bytes): bytes {
    var n := FirstFree(used, desired, 1);
    if n <= LAST_SUFFIX then Candidate(desired, n) else Fallback(desired)
  }

  /** The assigned name is entered: the fallback never is, nor is any name once 128 are. */
  predicate Reserves(used: seq<bytes>, desired: bytes) {
    FirstFree(used, desired, 1) <= LAST_SUFFIX && |used| < MAX_PREFIXES
  }

  function Registered(used: seq<bytes>, desired: bytes): seq<bytes> {
    if Reserves(used, desired) then used + [Assigned(used, desired)] else used
  }

  lemma {:induction false} FreeIsFound(used: seq<bytes>, desired: bytes, n: nat, k: nat)
    requires n <= k <= LAST_SUFFIX && Candidate(desired, k) !in used
    ensures FirstFree(used, desired, n) <= k
    decreases LAST_SUFFIX + 1 - n
  {
    if n < k && Candidate(desired, n) in used { FreeIsFound(used, desired, n + 1, k); }
  }

  /** `desired` with the number `n` behind a dash. */
  function Numbered(desired: bytes, n: nat): bytes {
    desired + [0x2D] + Decimal.Digits(n)
  }

  /** The bare name if it is not used; else the least number from 2 to 99 that gives an unused one; else an x. */
  ghost predicate IsNameFor(used: seq<bytes>, desired: bytes, name: bytes) {
    || (desired !in used && name == desired)
    || (desired in used && exists n :: 2 <= n <= 99 && IsNumberFor(used, desired, n) && name == Numbered(desired, n))
    || (NoneFree(used, desired) && name == desired + [0x2D, 0x78])
  }

  predicate IsNumberFor(used: seq<bytes>, desired: bytes, n: nat) {
    Numbered(desired, n) !in used && forall k :: 2 <= k < n ==> Numbered(desired, k) in used
  }

  predicate NoneFree(used: seq<bytes>, desired: bytes) {
    desired in used && forall k :: 2 <= k <= 99 ==> Numbered(desired, k) in used
  }

  /** Exactly one name is assigned; it is entered unless none was free, or 128 names are. */
  lemma NameForIff(used: seq<bytes>, desired: bytes, name: bytes)
    ensures IsNameFor(used, desired, name) <==> name == Assigned(used, desired)
    ensures Registered(used, desired) ==
            if NoneFree(used, desired) || |used| >= 128 then used else used + [Assigned(used, desired)]
  {
    var r := FirstFree(used, desired, 1);
    forall k | 1 <= k < r ensures Candidate(desired, k) in used {
      if Candidate(desired, k) !in used { FreeIsFound(used, desired, 1, k); }
    }
    assert Candidate(desired, 1) == desired;
    forall k: nat | k >= 2 ensures Numbered(desired, k) == Candidate(desired, k) {}
    if 2 <= r <= 99 { assert IsNumberFor(used, desired, r); }
    forall n | 2 <= n <= 99 && IsNumberFor(used, desired, n) && desired in used ensures n == r {
      assert r == 1 || Numbered(desired, r) == Candidate(desired, r);
    }
  }

  lemma CandidatesDiffer(desired: bytes, m: nat, n: nat)
    requires 1 <= m && 1 <= n && Candidate(desired, m) == Candidate(desired, n)
    ensures m == n
  {
    var front := desired + [DASH];
    if m > 1 && n > 1 {
      assert Candidate(desired, m)[|front|..] == Decimal.Digits(m);
      assert Candidate(desired, n)[|front|..] == Decimal.Digits(n);
      Decimal.DigitsInjective(m, n);
    }
  }

  /** Pigeonhole: `k` candidates that are all used take `k` places in the registry. */
  lemma {:induction false} UsedCandidatesTakePlaces(used: seq<bytes>, desired: bytes, k: nat)
    requires forall n :: 1 <= n <= k ==> Candidate(desired, n) in used
    ensures k <= |used|
  {
    if k > 0 {
      var i :| 0 <= i < |used| && used[i] == Candidate(desired, k);
      var others := used[..i] + used[i + 1..];
      forall n | 1 <= n <= k - 1 ensures Candidate(desired, n) in others {
        var j :| 0 <= j < |used| && used[j] == Candidate(desired, n);
        if j == i { CandidatesDiffer(desired, n, k); }
        assert others[if j < i then j else j - 1] == used[j];
      }
      UsedCandidatesTakePlaces(others, desired, k - 1);
    }
  }

  /** While at most 98 names are reserved, the assigned name is a new one and gets reserved. */
  lemma AssignedIsFresh(used: seq<bytes>, desired: bytes)
    requires |used| < LAST_SUFFIX
    ensures Assigned(used, desired) !in used
    ensures Registered(used, desired) == used + [Assigned(used, desired)]
  {
    if FirstFree(used, desired, 1) > LAST_SUFFIX {
      forall n | 1 <= n <= LAST_SUFFIX ensures Candidate(desired, n) in used {
        if Candidate(desired, n) !in used { FreeIsFound(used, desired, 1, n); }
      }
      UsedCandidatesTakePlaces(used, desired, LAST_SUFFIX);
    }
  }

  /** Exactly when the assigned name is new: a candidate is free, or the fallback happens to be. */
  lemma AssignedIsFreshIff(used: seq<bytes>, desired: bytes)
    ensures Assigned(used, desired) !in used <==>
            (exists n :: 1 <= n <= LAST_SUFFIX && Candidate(desired, n) !in used) || Fallback(desired) !in used
  {
    var r := FirstFree(used, desired, 1);
    if n :| 1 <= n <= LAST_SUFFIX && Candidate(desired, n) !in used {
      FreeIsFound(used, desired, 1, n);
    }
  }

  lemma FallbackIsNoCandidate(desired: bytes, n: nat)
    requires 1 <= n
    ensures Candidate(desired, n) != Fallback(desired)
  {
    if n > 1 {
      var k := |desired| + 1;
      assert Candidate(desired, n)[k] == Decimal.Digits(n)[0] && Fallback(desired)[k] == LETTER_X;
    }
  }

  /** A slug asked for twice in a row gets the same name exactly if no candidate was free or the registry is full. */
  lemma NameReusedIff(used: seq<bytes>, desired: bytes)
    ensures Assigned(Registered(used, desired), desired) == Assigned(used, desired) <==>
            (forall n :: 1 <= n <= LAST_SUFFIX ==> Candidate(desired, n) in used) || |used| >= MAX_PREFIXES
  {
    var n := FirstFree(used, desired, 1);
    if n <= LAST_SUFFIX {
      assert Candidate(desired, n) !in used;
      FallbackIsNoCandidate(desired, n);
      assert |used| < MAX_PREFIXES ==> Candidate(desired, n) in Registered(used, desired);
    } else {
      forall k | 1 <= k <= LAST_SUFFIX ensures Candidate(desired, k) in used {
        if Candidate(desired, k) !in used { FreeIsFound(used, desired, 1, k); }
      }
    }
  }

  /** The registry never holds a name twice. */
  lemma RegistryStaysDistinct(used: seq<bytes>, desired: bytes)
    requires NoRepeats(used)
    ensures NoRepeats(Registered(used, desired))
  {
  }

  // ---------------------------------------------------------------- whole runs of assignments

  /** What a run of assignments leaves: the registry, all names given out, and those given out without being entered. */
  datatype Registry = Registry(used: seq<bytes>, given: seq<bytes>, loose: set<bytes>)

  function Give(r: Registry, slug: bytes): Registry {
    var name := Assigned(r.used, slug);
    Registry(Registered(r.used, slug), r.given + [name], r.loose + if Reserves(r.used, slug) then {} else {name})
  }

  function After(slugs: seq<bytes>): Registry {
    if slugs == [] then Registry([], [], {}) else Give(After(slugs[..|slugs| - 1]), slugs[|slugs| - 1])
  }

  /** The next assignment repeats a name: one never entered, or the fallback where no candidate is free. */
  predicate Reuses(r: Registry, slug: bytes) {
    Assigned(r.used, slug) in r.loose || (FirstFree(r.used, slug, 1) > LAST_SUFFIX && Fallback(slug) in r.used)
  }

  /** No assignment of the run repeated a name. */
  predicate NeverReused(slugs: seq<bytes>) {
    slugs == [] || (NeverReused(slugs[..|slugs| - 1]) && !Reuses(After(slugs[..|slugs| - 1]), slugs[|slugs| - 1]))
  }

  /** Every assignment of the run found a free candidate and room in the registry. */
  predicate AlwaysReserved(slugs: seq<bytes>) {
    slugs == []
    || (AlwaysReserved(slugs[..|slugs| - 1]) && Reserves(After(slugs[..|slugs| - 1]).used, slugs[|slugs| - 1]))
  }

  lemma AfterNext(slugs: seq<bytes>, slug: bytes)
    ensures After(slugs + [slug]) == Give(After(slugs), slug)
    ensures NeverReused(slugs + [slug]) <==> NeverReused(slugs) && !Reuses(After(slugs), slug)
  {
    assert (slugs + [slug])[..|slugs|] == slugs;
  }

  /** Names given out are entered or loose; while none is loose the registry is just what was given out. */
  ghost predicate RegistryIs(r: Registry, n: nat) {
    && NoRepeats(r.used) && |r.used| <= |r.given| == n
    && (forall x :: x in r.given <==> x in r.used || x in r.loose)
    && (r.loose == {} ==> r.given == r.used)
    && (n <= LAST_SUFFIX ==> r.loose == {})
  }

  lemma GiveKeeps(r: Registry, slug: bytes, n: nat)
    requires RegistryIs(r, n)
    ensures RegistryIs(Give(r, slug), n + 1)
  {
    RegistryStaysDistinct(r.used, slug);
    if n < LAST_SUFFIX { AssignedIsFresh(r.used, slug); }
  }

  lemma {:induction false} AfterIs(slugs: seq<bytes>)
    ensures RegistryIs(After(slugs), |slugs|)
  {
    if slugs != [] {
      AfterIs(slugs[..|slugs| - 1]);
      GiveKeeps(After(slugs[..|slugs| - 1]), slugs[|slugs| - 1], |slugs| - 1);
    }
  }

  /** Exactly when the next name was given out before; the second form is the first while none is loose. */
  lemma ReuseIff(slugs: seq<bytes>, slug: bytes)
    ensures Assigned(After(slugs).used, slug) in After(slugs).given <==> Reuses(After(slugs), slug)
    ensures After(slugs).loose == {} ==>
              (Reuses(After(slugs), slug) <==>
               (forall n :: 1 <= n <= LAST_SUFFIX ==> Candidate(slug, n) in After(slugs).used)
                 && Fallback(slug) in After(slugs).used)
  {
    AfterIs(slugs);
    var used := After(slugs).used;
    if FirstFree(used, slug, 1) > LAST_SUFFIX {
      forall k | 1 <= k <= LAST_SUFFIX ensures Candidate(slug, k) in used {
        if Candidate(slug, k) !in used { FreeIsFound(used, slug, 1, k); }
      }
    } else {
      assert Candidate(slug, FirstFree(used, slug, 1)) !in used;
    }
  }

  lemma {:induction false} NoneLooseIff(slugs: seq<bytes>)
    ensures After(slugs).loose == {} <==> AlwaysReserved(slugs)
  {
    if slugs != [] { NoneLooseIff(slugs[..|slugs| - 1]); }
  }

  /** Over any run: the names given out are pairwise different exactly if no step met the condition for reuse. */
  lemma {:induction false} NamesApartIff(slugs: seq<bytes>)
    ensures NoRepeats(After(slugs).given) <==> NeverReused(slugs)
  {
    if slugs != [] {
      var front, last := slugs[..|slugs| - 1], slugs[|slugs| - 1];
      NamesApartIff(front);
      ReuseIff(front, last);
      MoreApart(After(front).given, Assigned(After(front).used, last));
    }
  }

  lemma MoreApart(s: seq<bytes>, x: bytes)
    ensures NoRepeats(s + [x]) <==> NoRepeats(s) && x !in s
  {
    var t := s + [x];
    assert forall i :: 0 <= i < |s| ==> t[i] == s[i];
    assert t[|s|] == x;
  }

  /** In particular while every assignment found a free candidate and room, and so for the first 99. */
  lemma ApartWhileReserved(slugs: seq<bytes>)
    ensures AlwaysReserved(slugs) || |slugs| <= LAST_SUFFIX ==> NeverReused(slugs)
  {
    NoneLooseIff(slugs);
    AfterIs(slugs);
    NamesApartIff(slugs);
  }

  // Names do come back.

  function Candidates(desired: bytes, n: nat): (r: seq<bytes>)
    ensures |r| == n
  {
    seq(n, i requires 0 <= i < n => Candidate(desired, i + 1))
  }

  function Repeated(slug: bytes, n: nat): seq<bytes> {
    seq(n, _ => slug)
  }

  /** With the first `n` candidates taken and no other, the next one is free. */
  lemma NextCandidate(front: seq<bytes>, slug: bytes, n: nat)
    requires n <= LAST_SUFFIX && forall k :: 1 <= k <= LAST_SUFFIX ==> Candidate(slug, k) !in front
    ensures FirstFree(front + Candidates(slug, n), slug, 1) == n + 1
  {
    var used := front + Candidates(slug, n);
    forall k | 1 <= k <= n ensures Candidate(slug, k) in used { assert used[|front| + k - 1] == Candidate(slug, k); }
    if n < LAST_SUFFIX {
      forall i | 0 <= i < |used| ensures used[i] != Candidate(slug, n + 1) {
        if i >= |front| {
          if used[i] == Candidate(slug, n + 1) { CandidatesDiffer(slug, i - |front| + 1, n + 1); }
        } else {
          assert used[i] in front;
        }
      }
      FreeIsFound(used, slug, 1, n + 1);
    }
  }

  /** One more assignment, when it finds candidate `n` free. */
  lemma TakesNext(r: Registry, names: seq<bytes>, slug: bytes, n: nat)
    requires 0 < n <= LAST_SUFFIX && |names| <= 1 && r.loose == {} && r.used == names + Candidates(slug, n - 1)
    requires FirstFree(r.used, slug, 1) == n
    ensures Give(r, slug).used == names + Candidates(slug, n) && Give(r, slug).loose == {}
  {
    assert Candidates(slug, n) == Candidates(slug, n - 1) + [Candidate(slug, n)];
    assert names + Candidates(slug, n) == r.used + [Candidate(slug, n)];
  }

  lemma AfterRepeat(front: seq<bytes>, slug: bytes, n: nat)
    requires n > 0
    ensures After(front + Repeated(slug, n)) == Give(After(front + Repeated(slug, n - 1)), slug)
  {
    assert front + Repeated(slug, n) == (front + Repeated(slug, n - 1)) + [slug];
    AfterNext(front + Repeated(slug, n - 1), slug);
  }

  /** A slug asked for `n` times in a row, none of its candidates being taken, gets the first `n` of them. */
  lemma {:induction false} RepeatedTakes(front: seq<bytes>, names: seq<bytes>, slug: bytes, n: nat)
      returns (r: Registry)
    requires n <= LAST_SUFFIX && |names| <= 1 && After(front).loose == {} && After(front).used == names
    requires forall k :: 1 <= k <= LAST_SUFFIX ==> Candidate(slug, k) !in names
    ensures r == After(front + Repeated(slug, n)) && r.used == names + Candidates(slug, n) && r.loose == {}
  {
    if n == 0 {
      assert front + Repeated(slug, 0) == front && names + Candidates(slug, 0) == names;
      r := After(front);
    } else {
      var before := RepeatedTakes(front, names, slug, n - 1);
      NextCandidate(names, slug, n - 1);
      TakesNext(before, names, slug, n);
      AfterRepeat(front, slug, n);
      r := Give(before, slug);
    }
  }

  /** What a slug asked for 100 times leaves: 99 candidates entered, and its fallback loose. */
  lemma AfterExhausting(slug: bytes) returns (r: Registry)
    ensures r == After(Repeated(slug, LAST_SUFFIX + 1))
    ensures r.used == Candidates(slug, LAST_SUFFIX) && r.loose == {Fallback(slug)}
  {
    var before := RepeatedTakes([], [], slug, LAST_SUFFIX);
    assert [] + Candidates(slug, LAST_SUFFIX) == Candidates(slug, LAST_SUFFIX);
    NextCandidate([], slug, LAST_SUFFIX);
    assert [] + Repeated(slug, LAST_SUFFIX + 1) == Repeated(slug, LAST_SUFFIX + 1);
    AfterRepeat([], slug, LAST_SUFFIX + 1);
    r := Give(before, slug);
  }

  lemma FallbackIsFree(slug: bytes)
    ensures Assigned(Candidates(slug, LAST_SUFFIX), Fallback(slug)) == Fallback(slug)
    ensures FirstFree(Candidates(slug, LAST_SUFFIX), Fallback(slug), 1) == 1
  {
    var used := Candidates(slug, LAST_SUFFIX);
    forall i | 0 <= i < |used| ensures used[i] != Fallback(slug) { FallbackIsNoCandidate(slug, i + 1); }
    assert Candidate(Fallback(slug), 1) !in used;
  }

  /**
   * Asked for 100 times, a slug gets its fallback, which is not entered: an app of that very name gets it
   * again, although its first candidate is free and the registry has room.
   */
  lemma LooseNameComesBack(slug: bytes)
    ensures var asked := Repeated(slug, LAST_SUFFIX + 1); var r := After(asked);
            && |r.used| < MAX_PREFIXES && FirstFree(r.used, Fallback(slug), 1) == 1
            && Assigned(r.used, Fallback(slug)) in r.given && !NeverReused(asked + [Fallback(slug)])
  {
    var asked := Repeated(slug, LAST_SUFFIX + 1);
    var r := AfterExhausting(slug);
    FallbackIsFree(slug);
    ReuseIff(asked, Fallback(slug));
    AfterNext(asked, Fallback(slug));
  }

  /** Where the fallback was some app's name before, the slug asked for the 100th time repeats it. */
  lemma EnteredNameComesBack(slug: bytes)
    ensures var asked := [Fallback(slug)] + Repeated(slug, LAST_SUFFIX); var r := After(asked);
            && Fallback(slug) in r.used && r.loose == {}
            && Assigned(r.used, slug) in r.given && !NeverReused(asked + [slug])
  {
    var first := [Fallback(slug)];
    var asked := first + Repeated(slug, LAST_SUFFIX);
    assert first == [] + first;
    AfterNext([], Fallback(slug));
    forall k | 1 <= k <= LAST_SUFFIX ensures Candidate(slug, k) !in first { FallbackIsNoCandidate(slug, k); }
    var r := RepeatedTakes(first, first, slug, LAST_SUFFIX);
    NextCandidate(first, slug, LAST_SUFFIX);
    assert r.used[0] == Fallback(slug);
    ReuseIff(asked, slug);
    AfterNext(asked, slug);
  }

  // ---------------------------------------------------------------- prefix text

  /** A prefix as the table stores it: no underscore, and within its 40 bytes. */
  predicate PrefixText(p: bytes) {
    0 < |p| < 40 && UNDERSCORE !in p
  }

  lemma AssignedIsPrefixText(used: seq<bytes>, desired: bytes)
    requires AppIdValid(desired)
    ensures PrefixText(Assigned(used, desired))
  {
    var n := FirstFree(used, desired, 1);
    if n <= LAST_SUFFIX && n > 1 {
      assert Decimal.Pow10(2) == 100;
      Decimal.DigitsLength(n, 2);
      var digits := Decimal.Digits(n);
      forall i | 0 <= i < |Candidate(desired, n)| ensures Candidate(desired, n)[i] != UNDERSCORE {
        if i > |desired| { assert Candidate(desired, n)[i] == digits[i - |desired| - 1]; }
      }
    }
  }

  // ---------------------------------------------------------------- tool names

  const SEPARATOR: bytes := [UNDERSCORE, UNDERSCORE]
  const NAME_LIMIT: nat := 127
  /** "workspace__list_apps" */
  const LIST_APPS: bytes :=
    [0x77, 0x6F, 0x72, 0x6B, 0x73, 0x70, 0x61, 0x63, 0x65, 0x5F, 0x5F,
     0x6C, 0x69, 0x73, 0x74, 0x5F, 0x61, 0x70, 0x70, 0x73]

  /** The name a backend's tool is listed under; `snprintf` cuts it at 127 bytes. */
  function ListedName(prefix: bytes, tool: bytes): bytes {
    var full := prefix + SEPARATOR + tool;
    if |full| <= NAME_LIMIT then full else full[..NAME_LIMIT]
  }

  /** Where `__` first occurs in `s` at or after `i`, or the length. */
  function SeparatorIn(s: bytes, i: nat): (r: nat)
    requires i <= |s|
    ensures i <= r <= |s| && (r < |s| ==> r + 2 <= |s|)
    decreases |s| - i
  {
    if i + 1 < |s| && !(s[i] == UNDERSCORE && s[i + 1] == UNDERSCORE) then SeparatorIn(s, i + 1)
    else if i + 1 < |s| then i
    else |s|
  }

  datatype Route = ListApps | NotFound | To(prefix: bytes, tool: bytes)

  function RouteOf(full: bytes): Route {
    var sep := SeparatorIn(full, 0);
    if full == LIST_APPS then ListApps
    else if sep == |full| || sep == 0 || sep + 2 == |full| then NotFound
    else To(full[..sep], full[sep + 2..])
  }

  method FindSeparator(s: bytes) returns (r: nat)
    ensures r == SeparatorIn(s, 0)
  {
    r := 0;
    while r + 1 < |s| && !(s[r] == UNDERSCORE && s[r + 1] == UNDERSCORE)
      invariant r <= |s| && SeparatorIn(s, 0) == SeparatorIn(s, r)
    {
      r := r + 1;
    }
    if r + 1 >= |s| {
      r := |s|;
    }
  }

  lemma {:induction false} SeparatorAt(s: bytes, i: nat, p: nat)
    requires i <= p && p + 1 < |s| && s[p] == s[p + 1] == UNDERSCORE
    requires forall k :: i <= k < p ==> s[k] != UNDERSCORE
    ensures SeparatorIn(s, i) == p
    decreases p - i
  {
    if i < p { SeparatorAt(s, i + 1, p); }
  }

  /**
   * A call by the listed name goes to exactly that prefix and tool, unless it is the built-in's
   * name or the name was cut.
   */
  lemma ListedNameRoutes(prefix: bytes, tool: bytes)
    requires PrefixText(prefix) && tool != []
    ensures RouteOf(ListedName(prefix, tool)) == To(prefix, tool) <==>
            |prefix| + 2 + |tool| <= NAME_LIMIT && prefix + SEPARATOR + tool != LIST_APPS
  {
    var full := ListedName(prefix, tool);
    var whole := prefix + SEPARATOR + tool;
    assert full[..|prefix|] == prefix;
    assert full[|prefix|] == full[|prefix| + 1] == UNDERSCORE;
    forall k | 0 <= k < |prefix| ensures full[k] != UNDERSCORE {
      assert full[k] == prefix[k];
    }
    SeparatorAt(full, 0, |prefix|);
    if |whole| <= NAME_LIMIT {
      assert full[|prefix| + 2..] == tool;
    } else {
      assert |full[|prefix| + 2..]| < |tool|;
    }
  }

  /** Names listed for different prefixes or tools stay apart while none is cut. */
  lemma ListedNamesDiffer(p: bytes, t: bytes, q: bytes, u: bytes)
    requires PrefixText(p) && PrefixText(q) && t != [] && u != []
    requires |p| + 2 + |t| <= NAME_LIMIT && |q| + 2 + |u| <= NAME_LIMIT
    requires ListedName(p, t) == ListedName(q, u)
    ensures p == q && t == u
  {
    ListedNameRoutes(p, t);
    ListedNameRoutes(q, u);
    if ListedName(p, t) == LIST_APPS {
      var s := LIST_APPS;
      assert forall k :: 0 <= k < |p| ==> s[k] == p[k];
      assert forall k :: 0 <= k < |q| ==> s[k] == q[k];
      SeparatorAt(s, 0, |p|);
      SeparatorAt(s, 0, |q|);
      assert p == s[..|p|] && q == s[..|q|];
      assert t == s[|p| + 2..] && u == s[|q| + 2..];
    }
  }
}
