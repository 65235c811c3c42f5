/** The resumable stdin reader: a compacting, doubling buffer over reads of any size. */
module StdioReader {
  import opened Bytes
  import F = Framing
  import opened Transport

  const FIRST_CAPACITY: nat := 4096

  // ---------------------------------------------------------------- buffer sizes

  /** 4096 doubled some number of times. */
  ghost predicate IsDoubled(capacity: nat)
  {
    capacity == FIRST_CAPACITY || (capacity > FIRST_CAPACITY && capacity % 2 == 0 && IsDoubled(capacity / 2))
  }

  ghost function Doubled(k: nat): (r: nat)
    ensures r >= FIRST_CAPACITY
  {
    if k == 0 then FIRST_CAPACITY else 2 * Doubled(k - 1)
  }

  lemma {:induction false} DoubledGap(capacity: nat, k: nat)
    requires IsDoubled(capacity) && capacity < Doubled(k)
    ensures 2 * capacity <= Doubled(k)
  {
    if k > 0 && capacity > FIRST_CAPACITY { DoubledGap(capacity / 2, k - 1); }
  }

  /** Below 16 MiB there is room to double without passing it. */
  lemma CapacityGrows(capacity: nat)
    requires IsDoubled(capacity) && capacity < F.MAX_MESSAGE
    ensures 2 * capacity <= F.MAX_MESSAGE
  {
    assert Doubled(4) == 16 * FIRST_CAPACITY;
    assert Doubled(8) == 16 * Doubled(4);
    assert Doubled(12) == 16 * Doubled(8);
    DoubledGap(capacity, 12);
  }

  // ---------------------------------------------------------------- the reader

  datatype Turn = Failed | More | Ended

  class Reader {
    const source: Source
    /** What happens to lie in memory behind the buffered bytes. */
    const memory: bytes
    var buf: array<byte>
    var len: nat
    var pos: nat
    var eof: bool
    var kind: F.Kind

    ghost predicate Valid()
      reads this, buf, source
    {
      && pos <= len <= buf.Length
      && source.Valid() && len <= source.given
      && (forall k :: 0 <= k < len ==> buf[k] == source.stream[source.given - len + k])
      && (buf.Length == 0 || IsDoubled(buf.Length)) && buf.Length <= F.MAX_MESSAGE
      && (eof ==> source.given == |source.stream| && len < buf.Length)
    }

    /** Where in the stream the next unconsumed byte is. */
    ghost function Position(): nat
      requires Valid()
      reads this, buf, source
    {
      source.given - (len - pos)
    }

    constructor (source: Source, memory: bytes)
      requires source.Valid() && source.given == 0
      ensures Valid() && fresh(buf) && this.source == source && this.memory == memory
      ensures kind == F.Unknown && Position() == 0 && buf.Length == 0
    {
      this.source, this.memory := source, memory;
      buf := new byte[0];
      len, pos := 0, 0;
      eof := false;
      kind := F.Unknown;
    }

    lemma BufferedByte(k: nat)
      requires Valid() && k < len
      ensures buf[k] == source.stream[source.given - len + k]
    {
    }

    /** Moves the unconsumed bytes to the front. */
    method Compact()
      requires Valid()
      modifies this`len, this`pos, buf
      ensures Valid() && pos == 0 && len - pos == old(len - pos) && Position() == old(Position())
    {
      if pos > 0 {
        forall k | 0 <= k < len - pos {
          buf[k] := buf[pos + k];
        }
        len := len - pos;
        pos := 0;
      }
    }

    /** Doubles a full buffer, or refuses to at 16 MiB. */
    method Grow() returns (ok: bool)
      requires Valid() && pos == 0 && !eof
      modifies this`buf
      ensures Valid() && Position() == old(Position()) && (buf == old(buf) || fresh(buf))
      ensures ok ==> len < buf.Length && (old(buf.Length) == 0 ==> buf.Length == FIRST_CAPACITY)
      ensures !ok ==> len == buf.Length == F.MAX_MESSAGE
      ensures len < old(buf.Length) ==> buf.Length == old(buf.Length)
    {
      if len == buf.Length {
        var capacity := if buf.Length > 0 then buf.Length * 2 else FIRST_CAPACITY;
        if 0 < buf.Length < F.MAX_MESSAGE { CapacityGrows(buf.Length); }
        if capacity > F.MAX_MESSAGE + 4096 {
          return false;
        }
        var bigger := new byte[capacity];
        forall k | 0 <= k < len {
          bigger[k] := buf[k];
        }
        buf := bigger;
      }
      return true;
    }

    /** One read into the free part of the buffer. */
    method ReadMore() returns (ok: bool)
      requires Valid() && !eof && len < buf.Length
      modifies this`len, this`eof, buf, source`given, source`plan
      ensures Valid() && Position() == old(Position())
      ensures ok ==> len > old(len) && source.given > old(source.given)
      ensures !ok ==> len == old(len) && source.given == old(source.given) && eof
      ensures old(source.Asks()) && old(source.plan[0]) <= buf.Length - old(len) ==>
                ok && source.given == old(source.given + source.plan[0])
    {
      var n := source.Read(buf, len, buf.Length - len);
      if n == 0 {
        eof := true;
        return false;
      }
      len := len + n;
      return true;
    }

    /** Pulls more bytes in; fails at the end of the stream and when 16 MiB are waiting already. */
    method Fill() returns (ok: bool)
      requires Valid()
      modifies this`buf, this`len, this`pos, this`eof, buf, source`given, source`plan
      ensures Valid() && Position() == old(Position()) && (buf == old(buf) || fresh(buf))
      ensures ok ==> len - pos > old(len - pos)
      ensures if ok then source.given > old(source.given) else source.given == old(source.given)
      ensures old(buf.Length == 0 && !eof && source.Asks() && source.plan[0] <= FIRST_CAPACITY) ==>
                ok && source.given == old(source.given + source.plan[0])
      ensures !ok ==> if eof then source.given == |source.stream| && len - pos < F.MAX_MESSAGE
                      else len - pos == F.MAX_MESSAGE
      ensures old(buf.Length) <= FIRST_CAPACITY && old(len - pos) < FIRST_CAPACITY ==> buf.Length <= FIRST_CAPACITY
    {
      if eof {
        return false;
      }
      Compact();
      ok := Grow();
      if !ok {
        return;
      }
      ok := ReadMore();
    }

    // -------------------------------------------------------------- detection

    method SkipSpaces()
      requires Valid()
      modifies this`pos
      ensures Valid() && old(pos) <= pos
      ensures F.SkipMarks(source.stream, Position()) == F.SkipMarks(source.stream, old(Position()))
      ensures pos < len ==> !F.IsSpace(buf[pos])
      ensures old(pos < len && !F.IsSpace(buf[pos])) ==> pos == old(pos)
    {
      while pos < len && F.IsSpace(buf[pos])
        invariant Valid() && old(pos) <= pos
        invariant F.SkipMarks(source.stream, Position()) == F.SkipMarks(source.stream, old(Position()))
        invariant old(pos < len && !F.IsSpace(buf[pos])) ==> pos == old(pos)
      {
        BufferedByte(pos);
        pos := pos + 1;
      }
    }

    /** Compares as much of the header key as is buffered. */
    method MatchKey(n: nat) returns (matches: bool)
      requires Valid() && n <= len - pos && n <= |F.KEY|
      ensures matches <==> F.KeyPrefix(source.stream, Position(), n)
    {
      var i := 0;
      while i < n
        invariant i <= n && F.KeyPrefix(source.stream, Position(), i)
      {
        BufferedByte(pos + i);
        if Lower(buf[pos + i]) != F.KEY[i] {
          if F.KeyPrefix(source.stream, Position(), n) { KeyPrefixShorter(source.stream, Position(), i + 1, n); }
          return false;
        }
        i := i + 1;
      }
      return true;
    }

    /** Is a byte-order mark, or all that is buffered of one, next? */
    method MatchMark() returns (whole: bool, partial: bool)
      requires Valid()
      ensures whole ==> len - pos >= 3 && F.MarkAt(source.stream, Position())
      ensures partial ==> 0 < len - pos < 3 && source.stream[Position()] == 0xEF
      ensures !whole && !partial && pos < len ==> !F.MarkAt(source.stream, Position())
    {
      if pos < len { BufferedByte(pos); }
      if pos + 1 < len { BufferedByte(pos + 1); }
      if pos + 2 < len { BufferedByte(pos + 2); }
      whole := len - pos >= 3 && buf[pos] == 0xEF && buf[pos + 1] == 0xBB && buf[pos + 2] == 0xBF;
      partial := 0 < len - pos < 3 && buf[pos] == 0xEF && (len - pos == 2 ==> buf[pos + 1] == 0xBB);
    }

    /** Decides the framing if enough of the stream is buffered to tell. */
    method Judge(partial: bool) returns (decided: bool)
      requires Valid() && kind == F.Unknown
      requires pos < len ==> !F.IsSpace(buf[pos]) && (partial || !F.MarkAt(source.stream, Position()))
      requires partial ==> 0 < len - pos < 3 && source.stream[Position()] == 0xEF
      modifies this`kind
      ensures Valid()
      ensures decided ==> pos < len && kind == F.Detected(source.stream, Position())
      ensures decided || source.given == |source.stream| ==>
                F.SkipMarks(source.stream, Position()) == Position()
      ensures !decided ==> kind == F.Unknown && len - pos < |F.KEY|
      ensures !decided && source.given == |source.stream| ==> !F.KeyAt(source.stream, Position())
    {
      if pos < len { BufferedByte(pos); }
      if pos < len && !partial {
        var n := if len - pos < |F.KEY| then len - pos else |F.KEY|;
        var matches := MatchKey(n);
        if !matches {
          if F.KeyAt(source.stream, Position()) { KeyPrefixShorter(source.stream, Position(), n, |F.KEY|); }
          kind := F.Ndjson;
          return true;
        }
        if n == |F.KEY| {
          kind := F.ContentLength;
          return true;
        }
      }
      return false;
    }

    method StepMark()
      requires Valid() && len - pos >= 3 && F.MarkAt(source.stream, Position())
      modifies this`pos
      ensures Valid() && pos == old(pos) + 3
      ensures F.SkipMarks(source.stream, Position()) == F.SkipMarks(source.stream, old(Position()))
    {
      pos := pos + 3;
    }

    /** Nothing was read yet, and the first read is to give `first` bytes. */
    ghost predicate Untouched(first: nat)
      requires Valid()
      reads this, buf, source
    {
      && kind == F.Unknown && !eof && buf.Length == 0 && source.given == 0
      && source.Asks() && source.plan[0] == first <= FIRST_CAPACITY
    }

    /** The stream starts with the header key, and `first` bytes of it are buffered. */
    ghost predicate KeyBuffered(first: nat)
      requires Valid()
      reads this, buf, source
    {
      source.given == first >= |F.KEY| && Position() == 0 && F.KeyAt(source.stream, 0)
    }

    /** A buffered header key is neither space nor mark. */
    lemma KeyIsVisible(first: nat)
      requires Valid() && KeyBuffered(first)
      ensures len - pos == first && pos < len && !F.IsSpace(buf[pos]) && buf[pos] != 0xEF
      ensures F.SkipMarks(source.stream, 0) == 0 && F.Detected(source.stream, 0) == F.ContentLength
    {
      KeyPrefixShorter(source.stream, 0, 1, |F.KEY|);
      assert F.KeyPrefix(source.stream, 0, 0);
      BufferedByte(pos);
    }

    /** Skips what is buffered of white space and marks, and decides if it can. */
    method Look(ghost first: nat) returns (again: bool, decided: bool)
      requires Valid() && kind == F.Unknown
      modifies this`pos, this`kind
      ensures Valid()
      ensures F.SkipMarks(source.stream, Position()) == F.SkipMarks(source.stream, old(Position()))
      ensures again ==> pos > old(pos) && kind == F.Unknown && !decided
      ensures decided ==> pos < len && kind == F.Detected(source.stream, Position())
      ensures !again && (decided || source.given == |source.stream|) ==>
              F.SkipMarks(source.stream, Position()) == Position()
      ensures !again && !decided ==> kind == F.Unknown && len - pos < |F.KEY| && pos >= old(pos)
      ensures !again && !decided && source.given == |source.stream| ==> !F.KeyAt(source.stream, Position())
      ensures old(KeyBuffered(first)) ==> decided && KeyBuffered(first)
    {
      hide F.SkipMarks, F.KeyPrefix;
      if KeyBuffered(first) { KeyIsVisible(first); }
      SkipSpaces();
      var whole, partial := MatchMark();
      if whole {
        StepMark();
        return true, false;
      }
      decided := Judge(partial);
      again := false;
    }

    /** One look at what is buffered, and one more read if it does not tell. */
    method DetectTurn(ghost first: nat) returns (done: bool, ok: bool)
      requires Valid() && kind == F.Unknown
      modifies this`buf, this`len, this`pos, this`eof, this`kind, buf, source`given, source`plan
      ensures Valid() && (buf == old(buf) || fresh(buf))
      ensures F.SkipMarks(source.stream, Position()) == F.SkipMarks(source.stream, old(Position()))
      ensures done ==> F.SkipMarks(source.stream, Position()) == Position() && (ok <==> Position() < |source.stream|)
      ensures kind == if done && ok then F.Detected(source.stream, Position()) else F.Unknown
      ensures !done ==>
                source.given > old(source.given) || (source.given == old(source.given) && len - pos < old(len - pos))
      ensures old(buf.Length) <= FIRST_CAPACITY ==> buf.Length <= FIRST_CAPACITY
      ensures old(Untouched(first)) ==> !done && source.given == first && Position() == 0
      ensures old(KeyBuffered(first)) ==> done && KeyBuffered(first)
    {
      var again, decided := Look(first);
      if again {
        return false, false;
      }
      if decided {
        return true, true;
      }
      var more := Fill();
      if more {
        return false, false;
      }
      if len > pos {
        kind := F.Ndjson;
      }
      return true, len > pos;
    }

    /** Decides the framing by the first visible bytes; fails only if the stream has none. */
    method Detect(ghost first: nat) returns (ok: bool)
      requires Valid() && kind == F.Unknown
      modifies this`buf, this`len, this`pos, this`eof, this`kind, buf, source`given, source`plan
      ensures Valid() && (buf == old(buf) || fresh(buf))
      ensures Position() == F.SkipMarks(source.stream, old(Position()))
      ensures ok <==> Position() < |source.stream|
      ensures kind == if ok then F.Detected(source.stream, Position()) else F.Unknown
      ensures old(buf.Length) <= FIRST_CAPACITY ==> buf.Length <= FIRST_CAPACITY
      ensures first >= |F.KEY| && F.KeyAt(source.stream, 0) && old(Untouched(first)) ==> KeyBuffered(first)
    {
      ghost var early := Untouched(first) && first >= |F.KEY| && F.KeyAt(source.stream, 0);
      var done;
      done, ok := false, false;
      while !done
        invariant Valid() && (buf == old(buf) || fresh(buf))
        invariant F.SkipMarks(source.stream, Position()) == F.SkipMarks(source.stream, old(Position()))
        invariant done ==>
                    F.SkipMarks(source.stream, Position()) == Position() && (ok <==> Position() < |source.stream|)
        invariant kind == if done && ok then F.Detected(source.stream, Position()) else F.Unknown
        invariant old(buf.Length) <= FIRST_CAPACITY ==> buf.Length <= FIRST_CAPACITY
        invariant early ==> KeyBuffered(first) || (!done && Untouched(first))
        decreases !done, |source.stream| - source.given, len - pos
      {
        done, ok := DetectTurn(first);
      }
    }

    // -------------------------------------------------------------- newline-delimited messages

    /** Where in the stream the buffer starts. */
    ghost function Base(): nat
      requires Valid()
      reads this, buf, source
    {
      source.given - len
    }

    /** The first newline buffered at or after `from`, or `len`. */
    method FindNewline(from: nat) returns (k: nat)
      requires Valid() && from <= len
      ensures from <= k <= len && (k < len ==> buf[k] == LF)
      ensures F.LineEnd(source.stream, Base() + from) == F.LineEnd(source.stream, Base() + k)
    {
      k := from;
      while k < len && buf[k] != LF
        invariant from <= k <= len
        invariant F.LineEnd(source.stream, Base() + from) == F.LineEnd(source.stream, Base() + k)
      {
        BufferedByte(k);
        k := k + 1;
      }
    }

    method TrimFront(start: nat, end: nat) returns (a: nat)
      requires Valid() && start <= end <= len
      ensures start <= a <= end && Base() + a == F.TrimLeft(source.stream, Base() + start, Base() + end)
    {
      a := start;
      while a < end && F.IsSpace(buf[a])
        invariant start <= a <= end
        invariant F.TrimLeft(source.stream, Base() + start, Base() + end) ==
                  F.TrimLeft(source.stream, Base() + a, Base() + end)
      {
        BufferedByte(a);
        a := a + 1;
      }
      if a < end { BufferedByte(a); }
    }

    method TrimBack(start: nat, end: nat) returns (e: nat)
      requires Valid() && start <= end <= len
      ensures start <= e <= end && Base() + e == F.TrimRight(source.stream, Base() + start, Base() + end)
    {
      e := end;
      while e > start && F.IsSpace(buf[e - 1])
        invariant start <= e <= end
        invariant F.TrimRight(source.stream, Base() + start, Base() + end) ==
                  F.TrimRight(source.stream, Base() + start, Base() + e)
      {
        BufferedByte(e - 1);
        e := e - 1;
      }
      if start < e { BufferedByte(e - 1); }
    }

    /** The line between the buffer indices `start` and `end`, without white space around it. */
    method TakeTrimmed(start: nat, end: nat) returns (line: bytes)
      requires Valid() && start <= end <= len
      ensures line == F.Trimmed(source.stream, Base() + start, Base() + end)
    {
      var a := TrimFront(start, end);
      var e := TrimBack(a, end);
      line := Take(a, e);
    }

    method Take(a: nat, e: nat) returns (text: bytes)
      requires Valid() && a <= e <= len
      ensures text == source.stream[Base() + a..Base() + e]
    {
      text := buf[a..e];
    }

    /** Consumes the line whose newline is buffered at `end`; a blank one gives nothing. */
    method ConsumeLine(end: nat, ghost goal: F.Step) returns (line: Option<bytes>)
      requires Valid() && pos <= end < len && Base() + end == F.LineEnd(source.stream, Position())
      requires goal == F.NextLine(source.stream, Position())
      modifies this`pos
      ensures Valid() && pos == end + 1
      ensures goal == if line.Some? then F.Step(line, F.Ndjson, Position()) else F.NextLine(source.stream, Position())
    {
      var text := TakeTrimmed(pos, end);
      pos := end + 1;
      assert |text| <= F.MAX_MESSAGE;
      return if text == [] then None else Some(text);
    }

    /** The last, unterminated line, or the loss of a line that fills the whole buffer. */
    method ConsumeRest(ghost goal: F.Step) returns (line: Option<bytes>)
      requires Valid() && goal == F.NextLine(source.stream, Position())
      requires F.LineEnd(source.stream, Position()) == F.LineEnd(source.stream, source.given)
      requires if eof then source.given == |source.stream| && len - pos < F.MAX_MESSAGE
               else len - pos == F.MAX_MESSAGE
      modifies this`pos
      ensures Valid()
      ensures goal == F.Step(line, F.Ndjson, Position())
    {
      hide IsDoubled, F.LineEnd, F.Trimmed;
      var text := TakeTrimmed(pos, len);
      pos := len;
      return if text == [] || !eof then None else Some(text);
    }

    /** No newline is buffered: pulls more in, or takes what there is as the last line. */
    method WaitForLine(ghost goal: F.Step) returns (done: bool, r: Option<bytes>)
      requires Valid() && goal == F.NextLine(source.stream, Position())
      requires F.LineEnd(source.stream, Position()) == F.LineEnd(source.stream, source.given)
      modifies this`buf, this`len, this`pos, this`eof, buf, source`given, source`plan
      ensures Valid() && (buf == old(buf) || fresh(buf))
      ensures done ==> goal == F.Step(r, F.Ndjson, Position()) && source.given == old(source.given)
      ensures !done ==> Position() == old(Position()) && len - pos > old(len - pos) && source.given > old(source.given)
    {
      var more := Fill();
      if more {
        return false, None;
      }
      r := ConsumeRest(goal);
      return true, r;
    }

    /**
     * Takes the next buffered line, or pulls more in. No newline lies between the position and
     * `from`, the stream position `clean`; compacting moves `scan`, not `clean'`.
     */
    method NdjsonTurn(from: nat, ghost clean: nat, ghost goal: F.Step)
      returns (done: bool, r: Option<bytes>, scan: nat, ghost clean': nat)
      requires Valid() && pos <= from <= len && clean == Base() + from && goal == F.NextLine(source.stream, Position())
      requires F.LineEnd(source.stream, Position()) == F.LineEnd(source.stream, clean)
      modifies this`buf, this`len, this`pos, this`eof, buf, source`given, source`plan
      ensures Valid() && (buf == old(buf) || fresh(buf))
      ensures goal == if done then F.Step(r, F.Ndjson, Position()) else F.NextLine(source.stream, Position())
      ensures !done ==> pos <= scan <= len && clean' == Base() + scan
      ensures !done ==> F.LineEnd(source.stream, Position()) == F.LineEnd(source.stream, clean')
      ensures !done ==>
                source.given > old(source.given) || (source.given == old(source.given) && len - pos < old(len - pos))
    {
      var end := FindNewline(from);
      if end < len {
        r := ConsumeLine(end, goal);
        return r.Some?, r, pos, Position();
      }
      var scanned := len - pos;
      clean' := source.given;
      done, r := WaitForLine(goal);
      scan := if done then pos else pos + scanned;
    }

    /** The next message line. */
    method NextNdjson() returns (r: Option<bytes>)
      requires Valid()
      modifies this`buf, this`len, this`pos, this`eof, buf, source`given, source`plan
      ensures Valid() && (buf == old(buf) || fresh(buf))
      ensures F.NextLine(source.stream, old(Position())) == F.Step(r, F.Ndjson, Position())
    {
      ghost var goal, clean := F.NextLine(source.stream, Position()), Position();
      var done, scan;
      done, r, scan := false, None, pos;
      while !done
        invariant Valid() && (buf == old(buf) || fresh(buf))
        invariant if done then goal == F.Step(r, F.Ndjson, Position())
                  else goal == F.NextLine(source.stream, Position())
        invariant !done ==> pos <= scan <= len && clean == Base() + scan
        invariant !done ==> F.LineEnd(source.stream, Position()) == F.LineEnd(source.stream, clean)
        decreases !done, |source.stream| - source.given, len - pos
      {
        done, r, scan, clean := NdjsonTurn(scan, clean, goal);
      }
    }

    // -------------------------------------------------------------- Content-Length messages

    /** The length of the header line at the position, or 0 if none ends before 1025 bytes are buffered. */
    method HeaderLine() returns (n: nat)
      requires Valid()
      modifies this`buf, this`len, this`pos, this`eof, buf, source`given, source`plan
      ensures Valid() && (buf == old(buf) || fresh(buf)) && Position() == old(Position())
      ensures n > 0 ==> n <= len - pos && F.LineEnd(source.stream, Position()) == Position() + n - 1
      ensures n > 0 ==> buf[pos + n - 1] == LF
      ensures F.LineEnd(source.stream, Position()) < old(source.given) ==> n > 0 && source.given == old(source.given)
      ensures old(buf.Length) <= FIRST_CAPACITY ==> n <= FIRST_CAPACITY
      ensures F.LineEnd(source.stream, Position()) >= old(source.given) && old(len - pos) > F.MAX_BUFFERED_HEADER ==>
              n == 0
      ensures n == 0 ==> var e := F.LineEnd(source.stream, Position());
                         e == |source.stream| || e - Position() > F.MAX_BUFFERED_HEADER
    {
      ghost var p := Position();
      while true
        invariant Valid() && (buf == old(buf) || fresh(buf)) && Position() == p
        invariant old(buf.Length) <= FIRST_CAPACITY ==> buf.Length <= FIRST_CAPACITY
        invariant (source.given == old(source.given) && len - pos == old(len - pos))
                  || (F.LineEnd(source.stream, p) >= old(source.given) && old(len - pos) <= F.MAX_BUFFERED_HEADER)
        decreases |source.stream| - source.given
      {
        var end := FindNewline(pos);
        if end < len {
          return end - pos + 1;
        }
        if len - pos > F.MAX_BUFFERED_HEADER {
          return 0;
        }
        var more := Fill();
        if !more {
          return 0;
        }
      }
    }

    /**
     * strtoul behind the key of the header line of `n` bytes: over the buffer, which has no terminator, and
     * the memory behind it.
     */
    method ReadLength(n: nat) returns (length: nat)
      requires Valid() && |F.KEY| < n <= len - pos
      ensures length == F.StrtoulSeen(source.stream, Position() + |F.KEY|, source.given, memory)
    {
      var text := buf[..len] + memory;
      ghost var s, base := source.stream[..source.given] + memory, Base();
      assert F.Window(s, base, text);
      F.StrtoulInWindow(s, base, text, pos + |F.KEY|);
      length := F.Strtoul(text, pos + |F.KEY|, |text|);
    }

    /** The length after the header line of `n` bytes at the position, read with what is buffered. */
    method LengthOfHeader(n: nat, length: Option<nat>) returns (length': Option<nat>)
      requires Valid() && 0 < n <= len - pos
      ensures length' == F.LengthSeen(source.stream, Position(), Position() + n - 1, source.given, memory, length)
    {
      if n <= |F.KEY| {
        return length;
      }
      var matches := MatchKey(|F.KEY|);
      if !matches {
        return length;
      }
      var value := ReadLength(n);
      return Some(value);
    }

    /** Waits for the announced body. */
    method ReadBody(length: nat) returns (r: Option<bytes>)
      requires Valid() && 0 < length <= F.MAX_MESSAGE
      modifies this`buf, this`len, this`pos, this`eof, buf, source`given, source`plan
      ensures Valid() && (buf == old(buf) || fresh(buf))
      ensures F.BodyAt(source.stream, old(Position()), Some(length)) == F.Step(r, F.ContentLength, Position())
    {
      ghost var p := Position();
      while len - pos < length
        invariant Valid() && (buf == old(buf) || fresh(buf)) && Position() == p
        decreases |source.stream| - source.given
      {
        var more := Fill();
        if !more {
          return None;
        }
      }
      var body := Take(pos, pos + length);
      pos := pos + length;
      return Some(body);
    }

    method IsBlank(n: nat) returns (blank: bool)
      requires Valid() && 0 < n <= len - pos
      ensures blank <==> F.BlankHeader(source.stream, Position(), Position() + n - 1)
    {
      BufferedByte(pos);
      blank := n == 1 || (n == 2 && buf[pos] == CR);
    }

    /** `frame` is what the header lines from the position on mean, given what came before them. */
    ghost predicate Announces(any: bool, length: Option<nat>, frame: F.Step)
      requires Valid()
      reads this, buf, source
    {
      F.HeadersFit(source.stream, Position(), any) && frame == F.NextFrame(source.stream, Position(), any, length)
    }

    /** A length line is next, buffered whole, and its frame is `frame` whatever the number read from the buffer. */
    ghost predicate Starts(frame: F.Step)
      requires Valid()
      reads this, buf, source
    {
      var e := F.LineEnd(source.stream, Position());
      && F.KeyAt(source.stream, Position()) && Position() + |F.KEY| <= e < source.given
      && F.HeadersFit(source.stream, e + 1, true)
      && frame == F.FrameSeen(source.stream, Position(), source.given, memory)
    }

    /** Consumes a blank header line: the end of a block, or a stray line before one. */
    method TakeBlank(n: nat, any: bool, length: Option<nat>, ghost frame: F.Step, ghost announced: bool)
      requires Valid() && 0 < n <= len - pos && F.LineEnd(source.stream, Position()) == Position() + n - 1
      requires F.BlankHeader(source.stream, Position(), Position() + n - 1)
      requires announced ==> Announces(any, length, frame)
      modifies this`pos
      ensures Valid() && pos == old(pos) + n
      ensures announced ==>
                if any then frame == F.BodyAt(source.stream, Position(), length) else Announces(any, length, frame)
    {
      pos := pos + n;
    }

    /** At `at`, `frame` is what the header lines from there on mean, given `length`. */
    ghost predicate Follows(at: nat, length: Option<nat>, frame: F.Step) {
      at <= |source.stream| && F.HeadersFit(source.stream, at, true)
        && frame == F.NextFrame(source.stream, at, true, length)
    }

    /** A header line that is not blank, of a block announced before it. */
    lemma FieldRead(n: nat, any: bool, length: Option<nat>, frame: F.Step)
      requires Valid() && 0 < n <= len - pos && F.LineEnd(source.stream, Position()) == Position() + n - 1
      requires !F.BlankHeader(source.stream, Position(), Position() + n - 1) && Announces(any, length, frame)
      ensures Follows(Position() + n,
              F.LengthSeen(source.stream, Position(), Position() + n - 1, source.given, memory, length), frame)
    {
      F.FieldSeen(source.stream, Position(), Position() + n - 1, source.given, memory, any, length);
    }

    /** The length line that starts a block. */
    lemma KeyRead(n: nat, length: Option<nat>, frame: F.Step)
      requires Valid() && 0 < n <= len - pos && F.LineEnd(source.stream, Position()) == Position() + n - 1
      requires Starts(frame)
      ensures Follows(Position() + n,
              F.LengthSeen(source.stream, Position(), Position() + n - 1, source.given, memory, length), frame)
    {
    }

    /** Either of the two. */
    lemma LineTaken(n: nat, any: bool, length: Option<nat>, frame: F.Step, announced: bool, starts: bool)
      requires Valid() && 0 < n <= len - pos && F.LineEnd(source.stream, Position()) == Position() + n - 1
      requires !F.BlankHeader(source.stream, Position(), Position() + n - 1)
      requires (announced ==> Announces(any, length, frame)) && (starts ==> Starts(frame))
      ensures announced || starts ==>
                Follows(Position() + n, F.LengthSeen(source.stream, Position(), Position() + n - 1, source.given,
                  memory, length), frame)
    {
      if announced {
        FieldRead(n, any, length, frame);
      } else if starts {
        KeyRead(n, length, frame);
      }
    }

    method Advance(n: nat, length: Option<nat>, ghost frame: F.Step)
      requires Valid() && n <= len - pos
      modifies this`pos
      ensures Valid() && pos == old(pos) + n
      ensures Follows(old(Position()) + n, length, frame) ==> Announces(true, length, frame)
    {
      hide IsDoubled, F.HeadersFit, F.NextFrame;
      pos := pos + n;
    }

    /** Consumes any other header line, keeping the length if it gives one; `known` tells that `frame` follows it. */
    method TakeField(n: nat, length: Option<nat>, ghost frame: F.Step, ghost known: bool) returns (length': Option<nat>)
      requires Valid() && 0 < n <= len - pos
      requires known ==>
                 Follows(Position() + n, F.LengthSeen(source.stream, Position(), Position() + n - 1, source.given,
                   memory, length), frame)
      modifies this`pos
      ensures Valid() && pos == old(pos) + n
      ensures known ==> Announces(true, length', frame)
    {
      length' := LengthOfHeader(n, length);
      Advance(n, length', frame);
    }

    /** Consumes the header line of `n` bytes at the position. */
    method TakeHeader(n: nat, any: bool, length: Option<nat>, ghost frame: F.Step, ghost announced: bool,
        ghost starts: bool)
      returns (ended: bool, any': bool, length': Option<nat>)
      requires Valid() && 0 < n <= len - pos && F.LineEnd(source.stream, Position()) == Position() + n - 1
      requires (announced ==> Announces(any, length, frame)) && (starts ==> Starts(frame))
      modifies this`pos
      ensures Valid() && pos == old(pos) + n
      ensures announced ==>
                if ended then frame == F.BodyAt(source.stream, Position(), length')
                else Announces(any', length', frame)
      ensures starts ==> !ended && Announces(any', length', frame)
    {
      if starts { F.KeyLine(source.stream, Position()); }
      var blank := IsBlank(n);
      if blank {
        TakeBlank(n, any, length, frame, announced);
        return any, any, length;
      }
      LineTaken(n, any, length, frame, announced, starts);
      ended, any' := false, true;
      length' := TakeField(n, length, frame, announced || starts);
    }

    /** Reads one header line, if there is one. */
    method HeaderTurn(any: bool, length: Option<nat>, ghost frame: F.Step)
      returns (turn: Turn, any': bool, length': Option<nat>)
      requires Valid()
      modifies this`buf, this`len, this`pos, this`eof, buf, source`given, source`plan
      ensures Valid() && (buf == old(buf) || fresh(buf))
      ensures if turn.Failed? then Position() == old(Position()) else Position() > old(Position())
      ensures old(Announces(any, length, frame)) ==>
                match turn
                case Failed => frame == F.Step(None, F.ContentLength, Position())
                case Ended => frame == F.BodyAt(source.stream, Position(), length')
                case More => Announces(any', length', frame)
      ensures old(Starts(frame)) ==> turn.More? && Announces(any', length', frame)
      ensures old(LineOutOfReach()) ==> turn.Failed?
    {
      hide IsDoubled, F.LineEnd;
      ghost var announced, starts := Announces(any, length, frame), Starts(frame);
      var n := HeaderLine();
      if n == 0 {
        return Failed, any, length;
      }
      var ended;
      ended, any', length' := TakeHeader(n, any, length, frame, announced, starts);
      turn := if ended then Ended else More;
    }

    /** The next header line has no newline among 1025 buffered bytes, or does not fit the first buffer. */
    ghost predicate LineOutOfReach()
      requires Valid()
      reads this, buf, source
    {
      var e := F.LineEnd(source.stream, Position());
      || (e >= source.given && len - pos > F.MAX_BUFFERED_HEADER)
      || (e - Position() >= FIRST_CAPACITY && buf.Length <= FIRST_CAPACITY)
    }

    /** Header lines up to the end of a block, or as far as they can be read; `goal` is what they mean. */
    method ReadHeaders(ghost goal: F.Step, ghost fits: bool) returns (turn: Turn, length: Option<nat>)
      requires Valid() && (fits ==> Announces(false, None, goal) || Starts(goal))
      modifies this`buf, this`len, this`pos, this`eof, buf, source`given, source`plan
      ensures Valid() && (buf == old(buf) || fresh(buf)) && Position() >= old(Position()) && !turn.More?
      ensures fits && turn.Failed? ==> goal == F.Step(None, F.ContentLength, Position())
      ensures fits && turn.Ended? ==> goal == F.BodyAt(source.stream, Position(), length)
      ensures old(LineOutOfReach()) ==> turn.Failed?
    {
      ghost var beyond := LineOutOfReach();
      var any := false;
      turn, length := More, None;
      while turn.More?
        invariant Valid() && (buf == old(buf) || fresh(buf)) && Position() >= old(Position())
        invariant fits && turn.More? ==> Announces(any, length, goal) || Starts(goal)
        invariant fits && turn.Failed? ==> goal == F.Step(None, F.ContentLength, Position())
        invariant fits && turn.Ended? ==> goal == F.BodyAt(source.stream, Position(), length)
        invariant beyond ==> turn.Failed? || (turn.More? && LineOutOfReach())
        decreases turn.More?, |source.stream| - Position()
      {
        turn, any, length := HeaderTurn(any, length, goal);
      }
    }

    /** A length line buffered whole means the same either way where its block fits. */
    lemma StartsAgrees(seen: F.Step)
      requires Valid() && Starts(seen) && F.HeadersFit(source.stream, Position(), false)
      ensures seen == F.NextFrame(source.stream, Position(), false, None)
    {
      F.KeyLine(source.stream, Position());
      F.FrameSeenIs(source.stream, Position(), source.given, memory);
    }

    method NextContentLength(ghost seen: F.Step) returns (r: Option<bytes>)
      requires Valid()
      modifies this`buf, this`len, this`pos, this`eof, buf, source`given, source`plan
      ensures Valid() && (buf == old(buf) || fresh(buf))
      ensures r.Some? ==> Position() > old(Position())
      ensures F.HeadersFit(source.stream, old(Position()), false) ==>
                F.NextFrame(source.stream, old(Position()), false, None) == F.Step(r, F.ContentLength, Position())
      ensures old(Starts(seen)) ==> seen == F.Step(r, F.ContentLength, Position())
      ensures old(LineOutOfReach()) ==> r.None?
    {
      ghost var starts, fits := Starts(seen), F.HeadersFit(source.stream, Position(), false);
      ghost var goal := if starts then seen else F.NextFrame(source.stream, Position(), false, None);
      if starts && fits { StartsAgrees(seen); }
      var turn, length := ReadHeaders(goal, starts || fits);
      if turn.Failed? || length.None? || length.value == 0 || length.value > F.MAX_MESSAGE {
        return None;
      }
      r := ReadBody(length.value);
    }

    // -------------------------------------------------------------- a call

    /** Detection from the start of the stream, and what the first read makes of a length line there. */
    method DetectFirst(ghost first: nat) returns (ok: bool)
      requires Valid() && kind == F.Unknown
      modifies this`buf, this`len, this`pos, this`eof, this`kind, buf, source`given, source`plan
      ensures Valid() && (buf == old(buf) || fresh(buf))
      ensures Position() == F.SkipMarks(source.stream, old(Position()))
      ensures ok <==> Position() < |source.stream|
      ensures kind == if ok then F.Detected(source.stream, Position()) else F.Unknown
      ensures old(Untouched(first)) && Seen(source.stream, first) ==>
                kind == F.ContentLength && Starts(FirstSeen(source.stream, first, memory))
      ensures old(Untouched(first)) && Cut(source.stream, first) ==> kind == F.ContentLength && LineOutOfReach()
      ensures old(buf.Length == 0) && TooLong(source.stream, Position()) ==> kind == F.ContentLength && LineOutOfReach()
    {
      ok := Detect(first);
      if TooLong(source.stream, Position()) { KeyPrefixShorter(source.stream, Position(), 1, |F.KEY|); }
      if Cut(source.stream, first) { KeyPrefixShorter(source.stream, 0, 1, |F.KEY|); }
    }

    /** A message, once the framing is known. */
    method NextKnown(ghost seen: F.Step) returns (r: Option<bytes>)
      requires Valid() && kind != F.Unknown
      modifies this`buf, this`len, this`pos, this`eof, buf, source`given, source`plan
      ensures Valid() && (buf == old(buf) || fresh(buf))
      ensures r.Some? ==> Position() > old(Position())
      ensures F.Fits(source.stream, kind, old(Position())) ==>
                F.Next(source.stream, kind, old(Position())) == F.Step(r, kind, Position())
      ensures kind == F.ContentLength && old(Starts(seen)) ==> seen == F.Step(r, kind, Position())
      ensures kind == F.ContentLength && old(LineOutOfReach()) ==> r.None?
    {
      if kind == F.ContentLength {
        r := NextContentLength(seen);
      } else {
        r := NextNdjson();
      }
    }

    /** Reads the next message; what it returns and where it stops depend on the stream alone, while headers fit. */
    method Next(ghost first: nat) returns (r: Option<bytes>)
      requires Valid()
      modifies this`buf, this`len, this`pos, this`eof, this`kind, buf, source`given, source`plan
      ensures Valid() && (buf == old(buf) || fresh(buf))
      ensures r.Some? ==> Position() > old(Position())
      ensures F.Fits(source.stream, old(kind), old(Position())) ==>
                F.Next(source.stream, old(kind), old(Position())) == F.Step(r, kind, Position())
      ensures old(Untouched(first)) && Seen(source.stream, first) ==>
                FirstSeen(source.stream, first, memory) == F.Step(r, kind, Position())
      ensures old(Untouched(first)) && Cut(source.stream, first) ==> r.None?
      ensures old(kind == F.Unknown && buf.Length == 0)
              && TooLong(source.stream, F.SkipMarks(source.stream, old(Position()))) ==>
                r.None?
    {
      ghost var seen := if Seen(source.stream, first) then FirstSeen(source.stream, first, memory)
          else F.Step(None, F.Unknown, 0);
      if kind == F.Unknown {
        var ok := DetectFirst(first);
        if !ok {
          return None;
        }
      }
      r := NextKnown(seen);
    }

    /** The messages still to come, if all headers fit. */
    ghost function Rest(): seq<bytes>
      requires Valid()
      reads this, buf, source
    {
      F.Messages(source.stream, kind, Position())
    }

    ghost predicate RestFits()
      requires Valid()
      reads this, buf, source
    {
      F.AllFit(source.stream, kind, Position())
    }

    /** `Next`, seen as taking the first of the messages still to come. */
    method NextMessage(ghost first: nat) returns (r: Option<bytes>)
      requires Valid()
      modifies this`buf, this`len, this`pos, this`eof, this`kind, buf, source`given, source`plan
      ensures Valid() && (buf == old(buf) || fresh(buf))
      ensures r.Some? ==> Position() > old(Position())
      ensures old(RestFits()) && r.None? ==> old(Rest()) == []
      ensures old(RestFits()) && r.Some? ==> old(Rest()) == [r.value] + Rest() && RestFits()
      ensures old(RestFits()) ==> kind == F.Next(source.stream, old(kind), old(Position())).kind
      ensures old(RestFits()) && old(kind) != F.Unknown ==> kind == old(kind)
      ensures old(RestFits()) && r.Some? ==> kind != F.Unknown
      ensures old(Untouched(first)) && Seen(source.stream, first) ==>
                FirstSeen(source.stream, first, memory) == F.Step(r, kind, Position())
      ensures old(Untouched(first)) && Cut(source.stream, first) ==> r.None?
      ensures old(kind == F.Unknown && buf.Length == 0)
              && TooLong(source.stream, F.SkipMarks(source.stream, old(Position()))) ==>
                r.None?
    {
      r := Next(first);
    }
  }

  lemma {:induction false} KeyPrefixShorter(s: bytes, i: nat, m: nat, n: nat)
    requires m <= n <= |F.KEY| && F.KeyPrefix(s, i, n)
    ensures F.KeyPrefix(s, i, m)
    decreases n
  {
    if m < n { KeyPrefixShorter(s, i, m, n - 1); }
  }

  // ---------------------------------------------------------------- what a first read shows of a first line

  /** The stream starts with a length line, a first read of `first` bytes holds it, and the lines behind it fit. */
  ghost predicate Seen(s: bytes, first: nat) {
    && F.KeyAt(s, 0) && |F.KEY| <= F.LineEnd(s, 0) < first <= |s|
    && F.HeadersFit(s, F.LineEnd(s, 0) + 1, true)
  }

  ghost function FirstSeen(s: bytes, first: nat, memory: bytes): F.Step
    requires Seen(s, first)
  {
    F.FrameSeen(s, 0, first, memory)
  }

  /** A length line without a number, read with one line or two. */
  lemma BlankSeen(s: bytes, e: nat, f: nat, memory: bytes)
    requires |F.KEY| <= e < f < |s| && Seen(s, e + 1) && e == F.LineEnd(s, 0) && f == F.LineEnd(s, e + 1)
    requires !F.HasVisible(s, |F.KEY|, e) && F.HasVisible(s, e + 1, f)
    ensures FirstSeen(s, e + 1, memory) == F.NextFrame(s, e + 1, true, Some(F.Strtoul(memory, 0, |memory|)))
    ensures Seen(s, f + 1)
    ensures FirstSeen(s, f + 1, memory) == F.NextFrame(s, e + 1, true, Some(F.Strtoul(s, e + 1, f)))
  {
    F.StrtoulOfMemory(s, |F.KEY|, e, memory);
    F.StrtoulOfNextLine(s, |F.KEY|, e, f, memory);
  }

  /** A first read that ends with the length line the stream starts with. */
  lemma SeenWhole(s: bytes, e: nat)
    requires F.KeyAt(s, 0) && |F.KEY| <= e == F.LineEnd(s, 0) < |s| && F.HeadersFit(s, e + 1, true)
    ensures Seen(s, e + 1)
  {
  }

  /** The first read ends in the length line the stream starts with, behind 1025 bytes of it. */
  ghost predicate Cut(s: bytes, first: nat) {
    F.KeyAt(s, 0) && F.MAX_BUFFERED_HEADER < first <= F.LineEnd(s, 0)
  }

  /** The length line at `a` does not fit the first buffer. */
  ghost predicate TooLong(s: bytes, a: nat)
    requires a <= |s|
  {
    F.KeyAt(s, a) && F.LineEnd(s, a) - a >= FIRST_CAPACITY
  }

  // ---------------------------------------------------------------- whole streams

  /** Every message a reader still finds. */
  method ReadOn(reader: Reader) returns (messages: seq<bytes>)
    requires reader.Valid()
    modifies reader`buf, reader`len, reader`pos, reader`eof, reader`kind, reader.buf, reader.source`given,
             reader.source`plan
    ensures old(reader.RestFits()) ==> messages == old(reader.Rest())
  {
    ghost var fits, all := reader.RestFits(), reader.Rest();
    messages := [];
    var r := reader.NextMessage(0);
    while r.Some?
      invariant reader.Valid() && (reader.buf == old(reader.buf) || fresh(reader.buf))
      invariant fits && r.Some? ==> reader.RestFits()
      invariant fits ==> all == messages + (if r.Some? then [r.value] + reader.Rest() else [])
      decreases r.Some?, |reader.source.stream| - reader.Position()
    {
      if fits { OneMore(messages, r.value, reader.Rest()); }
      messages := messages + [r.value];
      r := reader.NextMessage(0);
    }
  }

  /**
   * All messages of a stream. While headers fit, neither how `plan` splits it into reads makes a difference nor
   * what the memory behind the buffer holds; a length line that does not fit the first buffer ends the reading
   * however it is split. Of other streams that start with a length line it says what the first read, of
   * `plan[0]` bytes, makes of it.
   */
  method ReadAll(stream: bytes, plan: seq<nat>, memory: bytes) returns (messages: seq<bytes>, kind: F.Kind)
    ensures F.AllFit(stream, F.Unknown, 0) ==>
              messages == F.Messages(stream, F.Unknown, 0) && kind == F.Next(stream, F.Unknown, 0).kind
    ensures TooLong(stream, F.SkipMarks(stream, 0)) ==> messages == []
    ensures FirstRead(stream, plan) && Cut(stream, plan[0]) ==> messages == []
    ensures FirstRead(stream, plan) && Seen(stream, plan[0]) ==>
              var f := FirstSeen(stream, plan[0], memory);
              if f.message.None? then messages == [] else messages != [] && messages[0] == f.message.value
    ensures FirstRead(stream, plan) && Seen(stream, plan[0]) && FirstSeen(stream, plan[0], memory).message.Some? ==>
              var f := FirstSeen(stream, plan[0], memory);
              F.AllFit(stream, f.kind, f.at) ==> messages[1..] == F.Messages(stream, f.kind, f.at)
  {
    var source := new Source(stream, plan);
    var reader := new Reader(source, memory);
    ghost var first := if FirstRead(stream, plan) then plan[0] else 0;
    ghost var fits, all := reader.RestFits(), reader.Rest();
    var r := reader.NextMessage(first);
    kind := reader.kind;
    if r.None? {
      return [], kind;
    }
    ghost var rest := reader.Rest();
    var more := ReadOn(reader);
    assert fits ==> all == [r.value] + rest;
    messages := [r.value] + more;
  }

  /** The first read is to give `plan[0]` bytes, which the stream has and the first buffer holds. */
  ghost predicate FirstRead(stream: bytes, plan: seq<nat>) {
    plan != [] && 1 <= plan[0] <= |stream| && plan[0] <= FIRST_CAPACITY
  }

  /** The first message of `ReadAll`, as the first read decides it. */
  method ReadFirst(stream: bytes, first: nat, memory: bytes) returns (messages: seq<bytes>)
    requires FirstRead(stream, [first])
    ensures Cut(stream, first) ==> messages == []
    ensures Seen(stream, first) ==>
              var m := FirstSeen(stream, first, memory).message;
              if m.None? then messages == [] else messages != [] && messages[0] == m.value
  {
    var kind;
    messages, kind := ReadAll(stream, [first], memory);
  }

  /**
   * The bound on header lines is needed: if a stream starts with a length line of more than 1025 bytes that fits
   * the first buffer, and nothing else is wrong with its first frame, then no message is read if the
   * first read ends within the line, and the frame's body is read if it ends with the line.
   */
  method OverlongHeaderDependsOnReads(stream: bytes, body: bytes, memory: bytes)
      returns (cut: seq<bytes>, whole: seq<bytes>)
    requires F.KeyAt(stream, 0) && F.MAX_BUFFERED_HEADER < F.LineEnd(stream, 0) < |stream|
    requires F.LineEnd(stream, 0) < FIRST_CAPACITY && F.HasVisible(stream, |F.KEY|, F.LineEnd(stream, 0))
    requires F.HeadersFit(stream, F.LineEnd(stream, 0) + 1, true)
    requires F.NextFrame(stream, 0, false, None).message == Some(body)
    ensures cut == [] && whole != [] && whole[0] == body
  {
    var e := F.LineEnd(stream, 0);
    F.KeyLine(stream, 0);
    F.FrameSeenIs(stream, 0, e + 1, memory);
    cut := ReadFirst(stream, F.MAX_BUFFERED_HEADER + 1, memory);
    whole := ReadFirst(stream, e + 1, memory);
  }

  /**
   * So is the number on its own line. Let only blanks follow the key on the first line, and the next line
   * start with the number of bytes of a body. If the first read ends with the second line that body is read.
   * If it ends with the first line, the length is whatever number lies in the memory behind the buffer, which
   * was never written: what is read first then is the frame of that length, or nothing.
   */
  method BlankLengthReadsMemory(stream: bytes, e: nat, f: nat, body: bytes, memory: bytes)
      returns (one: seq<bytes>, two: seq<bytes>)
    requires F.KeyAt(stream, 0) && |F.KEY| <= e == F.LineEnd(stream, 0) < |stream| && !F.HasVisible(stream, |F.KEY|, e)
    requires f == F.LineEnd(stream, e + 1) < |stream| && f < FIRST_CAPACITY && F.HasVisible(stream, e + 1, f)
    requires F.HeadersFit(stream, e + 1, true)
    requires F.NextFrame(stream, e + 1, true, Some(F.Strtoul(stream, e + 1, f))).message == Some(body)
    ensures two != [] && two[0] == body
    ensures var m := F.NextFrame(stream, e + 1, true, Some(F.Strtoul(memory, 0, |memory|))).message;
            if m.None? then one == [] else one != [] && one[0] == m.value
  {
    hide F.NextFrame, F.Strtoul, F.LineEnd, F.HasVisible, F.KeyAt, F.HeadersFit, F.FrameSeen, FirstSeen, Seen, Cut;
    SeenWhole(stream, e);
    BlankSeen(stream, e, f, memory);
    one := ReadFirst(stream, e + 1, memory);
    two := ReadFirst(stream, f + 1, memory);
  }
}
