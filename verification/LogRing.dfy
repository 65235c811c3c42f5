/** The log ring: 512 slots that agree with an unbounded log, read through a polling cursor. */
module LogRing {
  import opened Bytes

  const RING_SIZE: nat := 512
  const MAX_TEXT: nat := 512
  const LAST_UINT64: nat := 0xFFFF_FFFF_FFFF_FFFF

  datatype Entry = Entry(seqNo: nat, time: int, level: int, text: bytes)

  /** The oldest sequence number still in the ring once `n` entries were appended. */
  function Oldest(n: nat): nat {
    if n + 1 > RING_SIZE then n + 1 - RING_SIZE else 1
  }

  function Min(a: nat, b: nat): nat {
    if a < b then a else b
  }

  ghost predicate Numbered(log: seq<Entry>) {
    forall j :: 0 <= j < |log| ==> log[j].seqNo == j + 1
  }

  /** Numbers less than a ring apart have different slots. */
  lemma DifferentSlots(a: nat, b: nat)
    requires a < b < a + RING_SIZE
    ensures a % RING_SIZE != b % RING_SIZE
  {
    assert b - a == (b / RING_SIZE - a / RING_SIZE) * RING_SIZE + (b % RING_SIZE - a % RING_SIZE);
  }

  lemma SliceGrows<T>(s: seq<T>, a: nat, b: nat)
    requires a <= b < |s|
    ensures s[a..b + 1] == s[a..b] + [s[b]]
  {
  }

  class Ring {
    var ring: array<Entry>
    var nextSeq: nat
    var started: bool
    /** Everything appended since the process began, numbered from 1. */
    ghost var log: seq<Entry>

    ghost predicate Valid()
      reads this, ring
    {
      && ring.Length == RING_SIZE && nextSeq == |log| + 1
      && Numbered(log)
      && (forall j :: Oldest(|log|) - 1 <= j < |log| ==> ring[(j + 1) % RING_SIZE] == log[j])
    }

    constructor ()
      ensures Valid() && log == [] && !started && fresh(ring)
    {
      ring := new Entry[RING_SIZE](_ => Entry(0, 0, 0, []));
      nextSeq, started := 1, false;
      log := [];
    }

    method SetStarted(on: bool)
      requires Valid()
      modifies this`started
      ensures Valid() && started == on
    {
      started := on;
    }

    /** Appends the C string in `text`, cut to 511 bytes; a stopped ring ignores it. */
    method Append(level: int, text: bytes, now: int)
      requires Valid()
      modifies this`nextSeq, this`log, ring
      ensures Valid()
      ensures var cut := if |CString(text)| < MAX_TEXT then CString(text) else CString(text)[..MAX_TEXT - 1];
              log == old(log) + if started then [Entry(|old(log)| + 1, now, level, cut)] else []
    {
      if !started {
        assert log + [] == log;
        return;
      }
      var s := CString(text);
      var copy := if |s| < MAX_TEXT then |s| else MAX_TEXT - 1;
      assert s[..|s|] == s;
      var e := Entry(nextSeq, now, level, s[..copy]);
      ghost var n := |log|;
      forall j | Oldest(n + 1) - 1 <= j < n ensures log[j].seqNo % RING_SIZE != nextSeq % RING_SIZE {
        DifferentSlots(j + 1, n + 1);
      }
      ring[nextSeq % RING_SIZE] := e;
      log := log + [e];
      nextSeq := nextSeq + 1;
    }

    /** Where reading behind the cursor `since` starts, and how many entries are told as dropped before it. */
    method Start(since: nat) returns (start: nat, dropped: nat)
      requires Valid() && since <= LAST_UINT64 && |log| < LAST_UINT64
      ensures start == if since < LAST_UINT64 then since + 1 + dropped else dropped
      ensures Oldest(|log|) <= start
      ensures dropped == OverwrittenBehind(|log|, since) + if since < LAST_UINT64 then 0 else Oldest(|log|)
    {
      var oldest := if nextSeq > RING_SIZE then nextSeq - RING_SIZE else 1;
      start := if since == LAST_UINT64 then 0 else since + 1;
      dropped := 0;
      if start < oldest {
        dropped := oldest - start;
        start := oldest;
      }
    }

    /**
     * Entries behind the cursor `since`, oldest first, at most `max`; overwritten ones are counted as
     * dropped, and in 64-bit arithmetic the three sum up to the next cursor. The largest cursor wraps around
     * and is taken for the beginning: it alone is told of a dropped entry that never was, the one before the
     * first. Numbers do not reach 2^64.
     */
    method Read(since: nat, max: nat) returns (entries: seq<Entry>, cursor: nat, dropped: nat)
      requires Valid() && since <= LAST_UINT64 && |log| < LAST_UINT64
      ensures since + dropped + |entries| == cursor + if since < LAST_UINT64 then 0 else LAST_UINT64 + 1
      ensures dropped == OverwrittenBehind(|log|, since) <==> since < LAST_UINT64
      ensures since == LAST_UINT64 ==> dropped == Oldest(|log|)
      ensures entries == Batch(log, if since < LAST_UINT64 then since + 1 + dropped else dropped, max)
      ensures var first := if since < LAST_UINT64 then since + dropped else dropped - 1;
              var behind := if first < |log| then |log| - first else 0;
              && |entries| == (if behind <= max then behind else max)
              && forall i :: 0 <= i < |entries| ==> entries[i] == log[first + i]
    {
      var start;
      start, dropped := Start(since);
      entries, cursor := Collect(start, max);
      BatchIs(log, start, max);
    }

    /** The entries from number `start` on, at most `max`. */
    method Collect(first: nat, max: nat) returns (entries: seq<Entry>, cursor: nat)
      requires Valid() && Oldest(|log|) <= first
      ensures cursor == first + |entries| - 1 && entries == Batch(log, first, max)
    {
      var start := first;
      entries := [];
      while start < nextSeq && |entries| < max
        invariant first <= start == first + |entries| && |entries| <= max
        invariant if first < nextSeq then start <= nextSeq && entries == log[first - 1..start - 1] else entries == []
      {
        assert ring[((start - 1) + 1) % RING_SIZE] == log[start - 1];
        SliceGrows(log, first - 1, start - 1);
        entries := entries + [ring[start % RING_SIZE]];
        start := start + 1;
      }
      cursor := start - 1;
    }
  }

  /** The entries numbered from `start` on, at most `max`. */
  function Batch(log: seq<Entry>, start: nat, max: nat): seq<Entry>
    requires 1 <= start
  {
    if start <= |log| then log[start - 1..Min(start - 1 + max, |log|)] else []
  }

  /** As many as there are, or as there is room for, one by one. */
  lemma BatchIs(log: seq<Entry>, start: nat, max: nat)
    requires 1 <= start
    ensures var behind := if start <= |log| then |log| - (start - 1) else 0;
            && |Batch(log, start, max)| == (if behind <= max then behind else max)
            && forall i :: 0 <= i < |Batch(log, start, max)| ==> Batch(log, start, max)[i] == log[start - 1 + i]
  {
  }

  lemma BatchSlice(log: seq<Entry>, from: nat, max: nat, n: nat)
    requires from <= |log| && n == |Batch(log, from + 1, max)|
    ensures from + n <= |log| && Batch(log, from + 1, max) == log[from..from + n]
  {
  }

  /** How many entries behind the cursor were overwritten once `n` were appended. */
  function OverwrittenBehind(n: nat, since: nat): nat {
    if since + 1 < Oldest(n) then Oldest(n) - 1 - since else 0
  }

  /** Of `n` entries appended, number `k` has been overwritten: another one went to its slot. */
  predicate Overwritten(n: nat, k: nat) {
    1 <= k && k + RING_SIZE <= n
  }

  /** They are just the overwritten ones among those behind the cursor, and come first. */
  lemma OverwrittenAre(n: nat, since: nat, k: nat)
    ensures since < k <= since + OverwrittenBehind(n, since) <==> since < k && Overwritten(n, k)
  {
  }

  // ---------------------------------------------------------------- a polling reader

  datatype Event = Append(level: int, text: bytes, now: int) | Poll(max: nat) | Switch(on: bool)

  /** `got` are entries of `log` up to number `cursor`, in order and none twice. */
  ghost predicate Delivered(got: seq<Entry>, log: seq<Entry>, cursor: nat) {
    && (forall i :: 0 <= i < |got| ==>
       1 <= got[i].seqNo <= cursor && got[i].seqNo <= |log| && log[got[i].seqNo - 1] == got[i])
    && (forall i, j :: 0 <= i < j < |got| ==> got[i].seqNo < got[j].seqNo)
  }

  /** One more poll: what it read follows what was there. */
  lemma DeliveredMore(got: seq<Entry>, log: seq<Entry>, cursor: nat, first: nat, last: nat)
    requires Delivered(got, log, cursor) && Numbered(log) && cursor <= first <= last <= |log|
    ensures Delivered(got + log[first..last], log, last)
  {
    var all := got + log[first..last];
    forall i | 0 <= i < |all|
      ensures 1 <= all[i].seqNo <= last && log[all[i].seqNo - 1] == all[i]
      ensures i >= |got| ==> all[i].seqNo == first + (i - |got|) + 1
    {
      if i >= |got| { assert all[i] == log[first + (i - |got|)]; }
    }
  }

  lemma DeliveredLonger(got: seq<Entry>, log: seq<Entry>, longer: seq<Entry>, cursor: nat)
    requires Delivered(got, log, cursor) && log <= longer
    ensures Delivered(got, longer, cursor)
  {
  }

  /** The log, and a reader with what it was given, where it stands and how much it was told it missed. */
  datatype Reading = Reading(log: seq<Entry>, started: bool, got: seq<Entry>, cursor: nat, dropped: nat)

  /** An append, a poll or a switch. */
  function After(r: Reading, e: Event): Reading {
    match e
    case Switch(on) => r.(started := on)
    case Append(level, text, now) =>
      var s := CString(text);
      if !r.started then r
      else r.(log := r.log + [Entry(|r.log| + 1, now, level, if |s| < MAX_TEXT then s else s[..MAX_TEXT - 1])])
    case Poll(max) =>
      var lost := OverwrittenBehind(|r.log|, r.cursor);
      var batch := Batch(r.log, r.cursor + 1 + lost, max);
      r.(got := r.got + batch, cursor := r.cursor + lost + |batch|, dropped := r.dropped + lost)
  }

  function AfterAll(r: Reading, events: seq<Event>): Reading {
    if events == [] then r else After(AfterAll(r, events[..|events| - 1]), events[|events| - 1])
  }

  /** One poll of a reader that has `got` and stands at `from`: lost are exactly the overwritten entries. */
  method PollOnce(ring: Ring, max: nat, got: seq<Entry>, from: nat) returns (got': seq<Entry>, cursor: nat, lost: nat)
    requires ring.Valid() && from < LAST_UINT64 && |ring.log| < LAST_UINT64 && from <= |ring.log|
    requires Delivered(got, ring.log, from)
    ensures Delivered(got', ring.log, cursor) && from <= cursor <= |ring.log|
    ensures |got'| + lost + from == |got| + cursor
    ensures forall k :: from < k <= from + lost <==> from < k && Overwritten(|ring.log|, k)
    ensures lost == OverwrittenBehind(|ring.log|, from) && got' == got + Batch(ring.log, from + 1 + lost, max)
    ensures |got'| - |got| == if |ring.log| - from - lost <= max then |ring.log| - from - lost else max
  {
    hide Batch, Delivered;
    var entries;
    entries, cursor, lost := ring.Read(from, max);
    BatchSlice(ring.log, from + lost, max, |entries|);
    DeliveredMore(got, ring.log, from, from + lost, cursor);
    forall k: nat ensures from < k <= from + lost <==> from < k && Overwritten(|ring.log|, k) {
      OverwrittenAre(|ring.log|, from, k);
    }
    got' := got + entries;
  }

  /** One event, on the ring and its reader. */
  method HandleOne(ring: Ring, e: Event, got: seq<Entry>, cursor: nat, dropped: nat)
    returns (got': seq<Entry>, cursor': nat, dropped': nat)
    requires ring.Valid() && |ring.log| < LAST_UINT64
    requires Delivered(got, ring.log, cursor) && |got| + dropped == cursor <= |ring.log|
    modifies ring, ring.ring
    ensures ring.Valid() && ring.ring == old(ring.ring)
    ensures old(ring.log) <= ring.log && |ring.log| <= |old(ring.log)| + 1
    ensures Delivered(got', ring.log, cursor') && |got'| + dropped' == cursor' <= |ring.log|
    ensures Reading(ring.log, ring.started, got', cursor', dropped') ==
            After(Reading(old(ring.log), old(ring.started), got, cursor, dropped), e)
  {
    hide Delivered, Batch, OverwrittenBehind, Overwritten;
    got', cursor', dropped' := got, cursor, dropped;
    match e
    case Switch(on) => ring.SetStarted(on);
    case Append(level, text, now) =>
      assert ring.log + [] == ring.log;
      ring.Append(level, text, now);
      DeliveredLonger(got, old(ring.log), ring.log, cursor);
    case Poll(max) =>
      var lost;
      got', cursor', lost := PollOnce(ring, max, got, cursor);
      dropped' := dropped + lost;
  }

  /**
   * Polls fed with the cursor of the one before, between any appends, as long as fewer than 2^64 - 1
   * entries exist: every entry up to the cursor was delivered once, in order, or counted as dropped, which
   * a poll does just for those overwritten by then.
   */
  method Follow(ring: Ring, events: seq<Event>) returns (got: seq<Entry>, cursor: nat, dropped: nat)
    requires ring.Valid() && |ring.log| + |events| < LAST_UINT64
    modifies ring, ring.ring
    ensures ring.Valid() && old(ring.log) <= ring.log
    ensures Reading(ring.log, ring.started, got, cursor, dropped) ==
            AfterAll(Reading(old(ring.log), old(ring.started), [], 0, 0), events)
    ensures Delivered(got, ring.log, cursor) && |got| + dropped == cursor <= |ring.log|
  {
    hide Delivered, After;
    got, cursor, dropped := [], 0, 0;
    NothingYet(ring.log);
    ghost var start := Reading(ring.log, ring.started, [], 0, 0);
    for i := 0 to |events|
      invariant ring.Valid() && ring.ring == old(ring.ring) && old(ring.log) <= ring.log
      invariant |ring.log| + |events| - i < LAST_UINT64
      invariant Delivered(got, ring.log, cursor) && |got| + dropped == cursor <= |ring.log|
      invariant Reading(ring.log, ring.started, got, cursor, dropped) == AfterAll(start, events[..i])
    {
      got, cursor, dropped := HandleOne(ring, events[i], got, cursor, dropped);
      assert events[..i + 1][..i] == events[..i];
    }
    assert events[..|events|] == events;
  }

  lemma NothingYet(log: seq<Entry>)
    ensures Delivered([], log, 0)
  {
  }
}
