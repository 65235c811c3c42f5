/** Sockets and pipes: reads and sends of any size over an abstract connection. */
module Transport {
  import opened Bytes

  /** A byte stream handed out in reads of the sizes `plan` asks for. */
  class Source {
    const stream: bytes
    var given: nat
    var plan: seq<nat>

    ghost predicate Valid()
      reads this
    {
      given <= |stream|
    }

    /** The next read is asked to give a number of bytes the stream still has. */
    ghost predicate Asks()
      reads this
    {
      plan != [] && 1 <= plan[0] && given + plan[0] <= |stream|
    }

    constructor (stream: bytes, plan: seq<nat>)
      ensures Valid() && this.stream == stream && given == 0 && this.plan == plan
    {
      this.stream, this.plan := stream, plan;
      given := 0;
    }

    /** Between 1 and `capacity` bytes go to `buffer[at..]`, or none at the end of the stream. */
    method Read(buffer: array<byte>, at: nat, capacity: nat) returns (n: nat)
      requires Valid() && 0 < capacity && at + capacity <= buffer.Length
      modifies this`given, this`plan, buffer
      ensures Valid() && given == old(given) + n && n <= capacity
      ensures n == 0 <==> old(given) == |stream|
      ensures forall k :: 0 <= k < at ==> buffer[k] == old(buffer[k])
      ensures forall k :: at <= k < at + n ==> buffer[k] == stream[old(given) + k - at]
      ensures old(Asks()) && old(plan[0]) <= capacity ==> n == old(plan[0])
    {
      n := if plan == [] then capacity else plan[0];
      if plan != [] {
        plan := plan[1..];
      }
      n := if n < 1 then 1 else if n > capacity then capacity else n;
      n := if n > |stream| - given then |stream| - given else n;
      forall k | 0 <= k < n {
        buffer[at + k] := stream[given + k];
      }
      given := given + n;
    }

    /** `mcp_conn_read`: reads on until `n` bytes are there, or the stream ends. */
    method ReadExact(buffer: array<byte>, n: nat) returns (ok: bool)
      requires Valid() && n <= buffer.Length
      modifies this`given, this`plan, buffer
      ensures Valid()
      ensures ok <==> old(given) + n <= |stream|
      ensures given == if ok then old(given) + n else |stream|
      ensures ok ==> buffer[..n] == stream[old(given)..given]
    {
      var done: nat := 0;
      while done < n
        invariant Valid() && done <= n && given == old(given) + done
        invariant forall k :: 0 <= k < done ==> buffer[k] == stream[old(given) + k]
      {
        var got := Read(buffer, done, n - done);
        if got == 0 {
          return false;
        }
        done := done + got;
      }
      return true;
    }
  }

  // ---------------------------------------------------------------- sending

  /** What one send does: take some bytes, be interrupted, fail, or (bounded only) not be ready in time. */
  datatype Outcome = Takes(count: nat) | Interrupted | Fails | Late

  /** `now` is `before` with a proper prefix of `text` behind it. */
  predicate CutShort(before: bytes, text: bytes, now: bytes) {
    |before| <= |now| < |before| + |text| && now == before + text[..|now| - |before|]
  }

  /** The three ways of writing: wait for a late peer, give it up, or give up whenever nothing is taken. */
  datatype Patience = Waits | Bounded | Never

  predicate GivesUp(outcome: Outcome, patience: Patience) {
    outcome.Fails? || (outcome.Late? && patience != Waits) || (outcome.Interrupted? && patience == Never)
  }

  function Clamped(count: nat, n: nat): nat {
    if count < 1 then 1 else if count > n then n else count
  }

  /** How many bytes go out, and what of the plan is left. */
  datatype Sending = Sending(count: nat, plan: seq<Outcome>)

  /** What comes of writing `n` bytes to a live connection; a plan that is used up is a failing peer. */
  function Sends(plan: seq<Outcome>, n: nat, patience: Patience): (r: Sending)
    ensures r.count <= n
    decreases |plan|
  {
    if n == 0 || plan == [] then Sending(0, plan)
    else if plan[0].Takes? then
      var k := Clamped(plan[0].count, n);
      var r := Sends(plan[1..], n - k, patience);
      Sending(k + r.count, r.plan)
    else if GivesUp(plan[0], patience) then Sending(0, plan[1..])
    else Sends(plan[1..], n, patience)
  }

  /** How many sends of the plan take something. */
  function Takings(plan: seq<Outcome>): (r: nat)
    decreases |plan|
  {
    if plan == [] then 0 else (if plan[0].Takes? then 1 else 0) + Takings(plan[1..])
  }

  /** No send fails, and enough of them take something for `n` bytes, even one byte at a time. */
  predicate Lasts(plan: seq<Outcome>, n: nat, patience: Patience) {
    n <= Takings(plan) && forall i :: 0 <= i < |plan| ==> !GivesUp(plan[i], patience)
  }

  /** Any send does for this write, but a failure. */
  predicate Waited(plan: seq<Outcome>) {
    forall i :: 0 <= i < |plan| ==> plan[i].Takes? || plan[i].Interrupted? || plan[i].Late?
  }

  /** And but for lateness. */
  predicate InTime(plan: seq<Outcome>) {
    forall i :: 0 <= i < |plan| ==> plan[i].Takes? || plan[i].Interrupted?
  }

  /** And but for interruptions. */
  predicate Straight(plan: seq<Outcome>) {
    forall i :: 0 <= i < |plan| ==> plan[i].Takes?
  }

  /** Spelled out: who waits is stopped by failures only, a bounded write by lateness too, one to stdout by either. */
  lemma LastsIff(plan: seq<Outcome>, n: nat)
    ensures Lasts(plan, n, Waits) <==> n <= Takings(plan) && Waited(plan)
    ensures Lasts(plan, n, Bounded) <==> n <= Takings(plan) && InTime(plan)
    ensures Lasts(plan, n, Never) <==> n <= Takings(plan) && Straight(plan)
  {
    hide Takings;
  }

  /** With such a plan everything goes out, and as much as was promised is left of the promise. */
  lemma {:induction false} LastingSends(plan: seq<Outcome>, n: nat, more: nat, patience: Patience)
    requires Lasts(plan, n + more, patience)
    ensures Sends(plan, n, patience).count == n && Lasts(Sends(plan, n, patience).plan, more, patience)
    decreases |plan|
  {
    if n > 0 {
      assert !GivesUp(plan[0], patience);
      var k := if plan[0].Takes? then Clamped(plan[0].count, n) else 0;
      assert Lasts(plan[1..], n - k + more, patience);
      LastingSends(plan[1..], n - k, more, patience);
    }
  }

  /** Where no send is given up, patience makes no difference. */
  lemma {:induction false} PatienceIdle(plan: seq<Outcome>, n: nat, more: nat)
    requires Lasts(plan, n + more, Bounded)
    ensures Sends(plan, n, Waits) == Sends(plan, n, Bounded)
    decreases |plan|
  {
    if n > 0 {
      assert !GivesUp(plan[0], Bounded);
      var k := if plan[0].Takes? then Clamped(plan[0].count, n) else 0;
      assert Lasts(plan[1..], n - k + more, Bounded);
      PatienceIdle(plan[1..], n - k, more);
    }
  }

  /** The sending side of a connection: `sent` has gone out, and a `dead` connection sends no more. */
  class Sink {
    var sent: bytes
    var dead: bool
    var plan: seq<Outcome>

    constructor (plan: seq<Outcome>)
      ensures sent == [] && !dead && this.plan == plan
    {
      sent, dead := [], false;
      this.plan := plan;
    }

    /** `mcp_conn_abort`: all later input and output fails. */
    method Abort()
      modifies this`dead
      ensures dead
    {
      dead := true;
    }

    /** One send of a non-empty text: the number of bytes taken, or what went wrong. */
    method Send(text: bytes) returns (outcome: Outcome)
      requires text != []
      modifies this
      ensures old(dead) || old(plan) == [] ==> outcome.Fails? && dead && plan == old(plan) && sent == old(sent)
      ensures !old(dead) && old(plan) != [] ==>
                && plan == old(plan)[1..] && dead == outcome.Fails?
                && outcome == (if old(plan[0]).Takes? then Takes(Clamped(old(plan[0]).count, |text|)) else old(plan[0]))
                && sent == old(sent) + if outcome.Takes? then text[..outcome.count] else []
    {
      if dead || plan == [] {
        dead := true;
        return Fails;
      }
      outcome := plan[0];
      plan := plan[1..];
      if outcome.Takes? {
        var n := if outcome.count < 1 then 1 else if outcome.count > |text| then |text| else outcome.count;
        outcome := Takes(n);
        sent := sent + text[..n];
      } else if outcome.Fails? {
        dead := true;
      }
    }

    /** The text so far with `count` more bytes of it. */
    lemma SentMore(before: bytes, text: bytes, done: nat, count: nat)
      requires done <= |text| && count <= |text| - done
      ensures before + text[..done] + text[done..][..count] == before + text[..done + count]
      ensures before + text[..0] == before && text[..|text|] == text
    {
      assert text[..done] + text[done..][..count] == text[..done + count];
    }

    /** `mcp_conn_write`: sends on until all is taken or a send fails; a late peer is waited for. */
    method Write(text: bytes) returns (ok: bool)
      modifies this
      ensures ok ==> sent == old(sent) + text && dead == old(dead)
      ensures !ok ==> dead && CutShort(old(sent), text, sent)
      ensures old(dead) ==> ok == (text == []) && sent == old(sent) && plan == old(plan)
      ensures !old(dead) ==> Went(old(sent), text, Sends(old(plan), |text|, Waits), sent, plan, ok)
      ensures !old(dead) && Waited(old(plan)) && |text| <= Takings(old(plan)) ==> ok
    {
      if Waited(plan) && |text| <= Takings(plan) {
        assert Lasts(plan, |text| + 0, Waits);
        LastingSends(plan, |text|, 0, Waits);
      }
      hide Lasts, Waited, Takings;
      var done: nat := 0;
      SentMore(sent, text, 0, 0);
      while done < |text|
        invariant done <= |text| && sent == old(sent) + text[..done]
        invariant dead == old(dead) && (dead ==> done == 0 && plan == old(plan))
        invariant !dead ==> Onward(old(plan), |text|, Waits, done, plan)
        decreases |plan|
      {
        var outcome := Send(text[done..]);
        if outcome.Fails? {
          return false;
        }
        if outcome.Takes? {
          SentMore(old(sent), text, done, outcome.count);
          done := done + outcome.count;
        }
      }
      SentMore(old(sent), text, 0, 0);
      return true;
    }

    /** `dxr_stdio_write_stdout`: any send that takes nothing is a failure, an interrupted one too. */
    method WriteStdout(text: bytes) returns (ok: bool)
      modifies this
      ensures ok ==> sent == old(sent) + text && dead == old(dead)
      ensures !ok ==> CutShort(old(sent), text, sent)
      ensures old(dead) ==> dead && ok == (text == []) && sent == old(sent) && plan == old(plan)
      ensures !old(dead) ==> Went(old(sent), text, Sends(old(plan), |text|, Never), sent, plan, ok)
      ensures !old(dead) && Straight(old(plan)) && |text| <= Takings(old(plan)) ==> ok
    {
      if Straight(plan) && |text| <= Takings(plan) {
        assert Lasts(plan, |text| + 0, Never);
        LastingSends(plan, |text|, 0, Never);
      }
      hide Lasts, Straight, Takings;
      var done: nat := 0;
      SentMore(sent, text, 0, 0);
      while done < |text|
        invariant done <= |text| && sent == old(sent) + text[..done] && dead == old(dead)
        invariant dead ==> done == 0 && plan == old(plan)
        invariant !dead ==> Onward(old(plan), |text|, Never, done, plan)
        decreases |plan|
      {
        var outcome := Send(text[done..]);
        if !outcome.Takes? {
          return false;
        }
        SentMore(old(sent), text, done, outcome.count);
        done := done + outcome.count;
      }
      SentMore(old(sent), text, 0, 0);
      return true;
    }

    /** `mcp_conn_write_bounded`: the same, but lateness and failure abort the connection. */
    method WriteBounded(text: bytes) returns (ok: bool)
      modifies this
      ensures ok ==> sent == old(sent) + text && dead == old(dead)
      ensures !ok ==> dead && CutShort(old(sent), text, sent)
      ensures old(dead) ==> ok == (text == []) && sent == old(sent) && plan == old(plan)
      ensures !old(dead) ==> Went(old(sent), text, Sends(old(plan), |text|, Bounded), sent, plan, ok)
      ensures !old(dead) && InTime(old(plan)) && |text| <= Takings(old(plan)) ==> ok
    {
      if InTime(plan) && |text| <= Takings(plan) {
        assert Lasts(plan, |text| + 0, Bounded);
        LastingSends(plan, |text|, 0, Bounded);
      }
      hide Lasts, InTime, Takings;
      var done: nat := 0;
      SentMore(sent, text, 0, 0);
      while done < |text|
        invariant done <= |text| && sent == old(sent) + text[..done]
        invariant dead == old(dead) && (dead ==> done == 0 && plan == old(plan))
        invariant !dead ==> Onward(old(plan), |text|, Bounded, done, plan)
        decreases |plan|
      {
        var outcome := Send(text[done..]);
        if outcome.Fails? || outcome.Late? {
          Abort();
          return false;
        }
        if outcome.Takes? {
          SentMore(old(sent), text, done, outcome.count);
          done := done + outcome.count;
        }
      }
      SentMore(old(sent), text, 0, 0);
      return true;
    }
  }

  /** With `done` bytes out and this plan left, the writing comes to what it comes to from the start. */
  ghost predicate Onward(first: seq<Outcome>, n: nat, patience: Patience, done: nat, plan: seq<Outcome>) {
    done <= n
    && var r := Sends(plan, n - done, patience);
       Sends(first, n, patience) == Sending(done + r.count, r.plan)
  }

  /** Exactly what the plan lets through of `text` went out, and it is a success if that is all of it. */
  ghost predicate Went(before: bytes, text: bytes, w: Sending, sent: bytes, plan: seq<Outcome>, ok: bool) {
    w.count <= |text| && sent == before + text[..w.count] && plan == w.plan && (ok <==> w.count == |text|)
  }
}
