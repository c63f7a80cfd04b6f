/**
 * Properties of the EC protocol's reference semantics: what the spin-poll
 * reads and when it stops, the shape of a handshake, and what setFan writes
 * and releases on every path.
 */
module EcProperties {
  import opened EcModel

  // ---------------------------------------------------------------------
  // Trace algebra

  lemma {:induction false} FilterAppend(a: seq<Event>, b: seq<Event>, p: Event -> bool)
    ensures Filter(a + b, p) == Filter(a, p) + Filter(b, p)
  {
    if a == [] {
      assert a + b == b;
    } else {
      var head := if p(a[0]) then [a[0]] else [];
      assert (a + b)[0] == a[0];
      assert (a + b)[1..] == a[1..] + b;
      assert Filter(a + b, p) == head + Filter(a[1..] + b, p);
      FilterAppend(a[1..], b, p);
      AppendAssoc(head, Filter(a[1..], p), Filter(b, p));
    }
  }

  lemma {:induction false} FilterRepeat(x: Event, n: nat, p: Event -> bool)
    ensures Filter(Repeat(x, n), p) == if p(x) then Repeat(x, n) else []
  {
    if n > 0 {
      assert Repeat(x, n)[1..] == Repeat(x, n - 1);
      FilterRepeat(x, n - 1, p);
    }
  }

  /** Filtering keeps a sequence whole when every element passes. */
  lemma {:induction false} FilterAll(s: seq<Event>, p: Event -> bool)
    requires forall x :: x in s ==> p(x)
    ensures Filter(s, p) == s
  {
    if s != [] {
      FilterAll(s[1..], p);
    }
  }

  /** Filtering drops a sequence whole when no element passes. */
  lemma {:induction false} FilterNone(s: seq<Event>, p: Event -> bool)
    requires forall x :: x in s ==> !p(x)
    ensures Filter(s, p) == []
  {
    if s != [] {
      FilterNone(s[1..], p);
    }
  }

  /** Dropping the empty pieces of a run: a + b + x + c + y + z + d is x + y + z. */
  lemma DropEmpties<T>(a: seq<T>, b: seq<T>, x: seq<T>, c: seq<T>, y: seq<T>, z: seq<T>, d: seq<T>)
    requires a == [] && b == [] && c == [] && d == []
    ensures a + b + x + c + y + z + d == x + y + z
  {
    assert a + b + x + c == x;
  }

  /** Dropping the empty middle of a run: x + a + b + c + d + e + y is x + y. */
  lemma KeepEnds<T>(x: seq<T>, a: seq<T>, b: seq<T>, c: seq<T>, d: seq<T>, e: seq<T>, y: seq<T>)
    requires a == [] && b == [] && c == [] && d == [] && e == []
    ensures x + a + b + c + d + e + y == x + y
  {
    assert x + a + b + c + d + e == x;
  }

  lemma AppendAssoc<T>(a: seq<T>, b: seq<T>, c: seq<T>)
    ensures (a + b) + c == a + (b + c)
  {
  }

  // ---------------------------------------------------------------------
  // The spin-poll

  /** Read `n` is the first read from `from` on that is not a mismatch, and it matches. */
  ghost predicate FirstHit(env: Env, from: nat, n: nat, mask: bv32, expected: byte) {
    Hit(env, n, mask, expected) && forall m :: from <= m < n ==> Miss(env, m, mask, expected)
  }

  /**
   * The poll makes at most `left` read transactions, all of the status port,
   * and changes nothing else; a successful poll has read at least once, and
   * a poll on the null handle fails without a read.
   */
  lemma {:induction false} PollFrame(env: Env, h: Handle, s: St, mask: bv32, expected: byte, left: nat)
    ensures var r := PollOutcome(env, h, s, mask, expected, left);
      s.readCount <= r.st.readCount <= s.readCount + left &&
      r.st == s.(trace := s.trace + Repeat(In(STATUS_PORT), r.st.readCount - s.readCount),
                 readCount := r.st.readCount) &&
      (r.ok ==> r.st.readCount > s.readCount) &&
      (h.raw == 0 ==> r == Step(false, s))
    decreases left
  {
    if left > 0 {
      var rd := ReadOutcome(env, h, s, STATUS_PORT, 0);
      if h.raw == 0 {
        assert s.trace + Repeat(In(STATUS_PORT), 0) == s.trace;
      } else if rd.ok && !Matches(rd.value, mask, expected) {
        PollFrame(env, h, rd.st, mask, expected, left - 1);
        var q := PollOutcome(env, h, rd.st, mask, expected, left - 1);
        assert Repeat(In(STATUS_PORT), q.st.readCount - s.readCount)
            == [In(STATUS_PORT)] + Repeat(In(STATUS_PORT), q.st.readCount - rd.st.readCount);
      } else {
        assert Repeat(In(STATUS_PORT), 1) == [In(STATUS_PORT)];
      }
    }
  }

  /**
   * The poll stops at the first read that is not a mismatch: it succeeds
   * exactly when that read delivered a matching byte (a failed read ends it
   * with false), and it has made exactly k + 1 reads.
   */
  lemma {:induction false} PollStopsAt(env: Env, h: Handle, s: St, mask: bv32, expected: byte, left: nat, k: nat)
    requires h.raw != 0 && k < left
    requires forall n :: s.readCount <= n < s.readCount + k ==> Miss(env, n, mask, expected)
    requires !Miss(env, s.readCount + k, mask, expected)
    ensures var r := PollOutcome(env, h, s, mask, expected, left);
      r.ok == Hit(env, s.readCount + k, mask, expected) && r.st.readCount == s.readCount + k + 1
    decreases k
  {
    if k > 0 {
      assert Miss(env, s.readCount, mask, expected);
      var rd := ReadOutcome(env, h, s, STATUS_PORT, 0);
      PollStopsAt(env, h, rd.st, mask, expected, left - 1, k - 1);
    }
  }

  /** When every read delivers a mismatching byte, the poll makes all `left` reads and fails. */
  lemma {:induction false} PollTimeout(env: Env, h: Handle, s: St, mask: bv32, expected: byte, left: nat)
    requires h.raw != 0
    requires forall n :: s.readCount <= n < s.readCount + left ==> Miss(env, n, mask, expected)
    ensures var r := PollOutcome(env, h, s, mask, expected, left);
      !r.ok && r.st.readCount == s.readCount + left
    decreases left
  {
    if left > 0 {
      assert Miss(env, s.readCount, mask, expected);
      var rd := ReadOutcome(env, h, s, STATUS_PORT, 0);
      PollTimeout(env, h, rd.st, mask, expected, left - 1);
    }
  }

  /** The poll succeeds exactly when, within its budget, the first read that is not a mismatch is a match. */
  lemma {:induction false} PollSucceedsIff(env: Env, h: Handle, s: St, mask: bv32, expected: byte, left: nat)
    requires h.raw != 0
    ensures PollOutcome(env, h, s, mask, expected, left).ok <==>
      exists n :: s.readCount <= n < s.readCount + left && FirstHit(env, s.readCount, n, mask, expected)
    decreases left
  {
    var from := s.readCount;
    if left == 0 {
    } else if !Delivered(env.readReply(from)) {
      forall n | from <= n < from + left
        ensures !FirstHit(env, from, n, mask, expected)
      {
        assert !Miss(env, from, mask, expected);
      }
    } else if Matches(env.readReply(from).data, mask, expected) {
      assert FirstHit(env, from, from, mask, expected);
    } else {
      var rd := ReadOutcome(env, h, s, STATUS_PORT, 0);
      PollSucceedsIff(env, h, rd.st, mask, expected, left - 1);
      assert Miss(env, from, mask, expected);
      if PollOutcome(env, h, rd.st, mask, expected, left - 1).ok {
        var n :| from + 1 <= n < from + left && FirstHit(env, from + 1, n, mask, expected);
        assert FirstHit(env, from, n, mask, expected);
      } else if exists n :: from <= n < from + left && FirstHit(env, from, n, mask, expected) {
        var n :| from <= n < from + left && FirstHit(env, from, n, mask, expected);
        assert n != from;
        assert FirstHit(env, from + 1, n, mask, expected);
        assert false;
      }
    }
  }

  /** A status source that already matches on the first read: one read, success. */
  lemma WaitFirstReadMatches(env: Env, h: Handle, s: St, mask: bv32, expected: byte)
    requires h.raw != 0 && Hit(env, s.readCount, mask, expected)
    ensures var r := WaitOutcome(env, h, s, mask, expected);
      r.ok && r.st == s.(trace := s.trace + [In(STATUS_PORT)], readCount := s.readCount + 1)
  {
  }

  /** A status source that never matches: exactly POLL_ATTEMPTS reads of the status port, then failure. */
  lemma WaitNeverMatches(env: Env, h: Handle, s: St, mask: bv32, expected: byte)
    requires h.raw != 0
    requires forall n :: s.readCount <= n < s.readCount + POLL_ATTEMPTS ==> Miss(env, n, mask, expected)
    ensures var r := WaitOutcome(env, h, s, mask, expected);
      !r.ok && r.st == s.(trace := s.trace + Repeat(In(STATUS_PORT), POLL_ATTEMPTS),
                          readCount := s.readCount + POLL_ATTEMPTS)
  {
    PollTimeout(env, h, s, mask, expected, POLL_ATTEMPTS);
    PollFrame(env, h, s, mask, expected, POLL_ATTEMPTS);
  }

  // ---------------------------------------------------------------------
  // The handshakes

  /**
   * The events a handshake adds when it made `readsMade` read transactions:
   * none without a read; otherwise one read of the data port, then status
   * reads, then the magic byte to the command port if it got that far.
   */
  function HandshakeEvents(readsMade: nat, wrote: bool, magic: byte): seq<Event> {
    if readsMade == 0 then []
    else [In(DATA_PORT)] + Repeat(In(STATUS_PORT), readsMade - 1)
         + (if wrote then [Out(COMMAND_PORT, magic)] else [])
  }

  /**
   * A handshake adds exactly HandshakeEvents: it writes the magic byte if and
   * only if the data-port read and the ready wait both succeeded (and the
   * handle is accepted for writes), and it succeeds exactly when that write
   * is acknowledged. It makes at most 1 + POLL_ATTEMPTS reads and at most one
   * write.
   */
  lemma HandshakeEffect(env: Env, h: Handle, s: St, magic: byte)
    ensures var r := HandshakeOutcome(env, h, s, magic);
      var wrote := HandshakeReady(env, h, s) && h.raw >= 0;
      s.readCount <= r.st.readCount <= s.readCount + 1 + POLL_ATTEMPTS &&
      (r.st.readCount == s.readCount <==> h.raw == 0) &&
      (HandshakeReady(env, h, s) ==> r.st.readCount >= s.readCount + 2) &&
      r.st == s.(trace := s.trace + HandshakeEvents(r.st.readCount - s.readCount, wrote, magic),
                 readCount := r.st.readCount,
                 writeCount := s.writeCount + if wrote then 1 else 0) &&
      (r.ok <==> wrote && env.writeReply(s.writeCount))
  {
    var rd := ReadOutcome(env, h, s, DATA_PORT, 0);
    if h.raw != 0 {
      var w := WaitOutcome(env, h, rd.st, READY_MASK, 0x00);
      PollFrame(env, h, rd.st, READY_MASK, 0x00, POLL_ATTEMPTS);
      var n := w.st.readCount - rd.st.readCount;
      if rd.ok {
        assert rd.st.trace + Repeat(In(STATUS_PORT), n) == s.trace + ([In(DATA_PORT)] + Repeat(In(STATUS_PORT), n));
        if w.ok && h.raw >= 0 {
          assert HandshakeEvents(n + 1, true, magic) == [In(DATA_PORT)] + Repeat(In(STATUS_PORT), n) + [Out(COMMAND_PORT, magic)];
        } else {
          assert HandshakeEvents(n + 1, false, magic) == [In(DATA_PORT)] + Repeat(In(STATUS_PORT), n);
        }
      } else {
        assert HandshakeEvents(1, false, magic) == [In(DATA_PORT)];
      }
    }
  }

  /** What a handshake's events contain: one magic write at most, no data-port write, no handle event. */
  lemma HandshakeEventsFilters(readsMade: nat, wrote: bool, magic: byte)
    ensures var e := HandshakeEvents(readsMade, wrote, magic);
      Filter(e, IsOut) == (if readsMade > 0 && wrote then [Out(COMMAND_PORT, magic)] else []) &&
      Filter(e, IsDataPortWrite) == [] &&
      Filter(e, IsHandleEvent) == []
  {
    if readsMade > 0 {
      var head := [In(DATA_PORT)] + Repeat(In(STATUS_PORT), readsMade - 1);
      var tail: seq<Event> := if wrote then [Out(COMMAND_PORT, magic)] else [];
      FilterAppend([In(DATA_PORT)], Repeat(In(STATUS_PORT), readsMade - 1), IsOut);
      FilterAppend([In(DATA_PORT)], Repeat(In(STATUS_PORT), readsMade - 1), IsDataPortWrite);
      FilterAppend([In(DATA_PORT)], Repeat(In(STATUS_PORT), readsMade - 1), IsHandleEvent);
      FilterRepeat(In(STATUS_PORT), readsMade - 1, IsOut);
      FilterRepeat(In(STATUS_PORT), readsMade - 1, IsDataPortWrite);
      FilterRepeat(In(STATUS_PORT), readsMade - 1, IsHandleEvent);
      FilterAppend(head, tail, IsOut);
      FilterAppend(head, tail, IsDataPortWrite);
      FilterAppend(head, tail, IsHandleEvent);
    }
  }

  /**
   * A failed data-port read ends a handshake: it fails, no wait and no write
   * follow, and the only event is that read (none with a null handle).
   */
  lemma HandshakeReadFailure(env: Env, h: Handle, s: St, magic: byte)
    requires h.raw == 0 || !Delivered(env.readReply(s.readCount))
    ensures var r := HandshakeOutcome(env, h, s, magic);
      !r.ok &&
      r.st == if h.raw == 0 then s
              else s.(trace := s.trace + [In(DATA_PORT)], readCount := s.readCount + 1)
  {
  }

  /**
   * A successful handshake is one read of 0x68, between one and
   * POLL_ATTEMPTS status reads, and the magic byte written to 0x6C.
   */
  lemma HandshakeSuccessShape(env: Env, h: Handle, s: St, magic: byte)
    ensures var r := HandshakeOutcome(env, h, s, magic);
      r.ok ==>
        s.readCount + 2 <= r.st.readCount <= s.readCount + 1 + POLL_ATTEMPTS &&
        r.st.trace == s.trace + [In(DATA_PORT)] + Repeat(In(STATUS_PORT), r.st.readCount - s.readCount - 1)
                              + [Out(COMMAND_PORT, magic)] &&
        r.st.writeCount == s.writeCount + 1
  {
    HandshakeEffect(env, h, s, magic);
  }

  // ---------------------------------------------------------------------
  // What each step adds to the trace

  /** Events among which there is no write and no handle event. */
  predicate Silent(e: seq<Event>) {
    Filter(e, IsOut) == [] && Filter(e, IsDataPortWrite) == [] && Filter(e, IsHandleEvent) == []
  }

  /**
   * The events of a handshake whose magic write is `m`: no handle event,
   * no data-port write, the write `m` at most once and nothing else written;
   * when the handshake succeeded (`ok`), `m` is written and is its last event.
   */
  predicate HandshakeShape(e: seq<Event>, m: Event, ok: bool) {
    Filter(e, IsHandleEvent) == [] && Filter(e, IsDataPortWrite) == [] &&
    (Filter(e, IsOut) == [] || Filter(e, IsOut) == [m]) &&
    (ok ==> Filter(e, IsOut) == [m] && e != [] && e[|e| - 1] == m)
  }

  /**
   * The pieces of setFan's body for the stage it reached: the waits write
   * nothing; the intro handshake did not run if the idle wait failed and
   * wrote its 0x59 if it succeeded; the ready wait did not run if an earlier
   * step failed; the fan command is attempted exactly when every earlier
   * step succeeded.
   */
  predicate BodyShape(stage: Stage, idle: seq<Event>, intro: seq<Event>, ready: seq<Event>,
                      command: seq<Event>, on: bool) {
    Silent(idle) && Silent(ready) &&
    HandshakeShape(intro, Out(COMMAND_PORT, INTRO_COMMAND), stage != IdleWaitFailed && stage != IntroFailed) &&
    (stage == IdleWaitFailed ==> intro == []) &&
    (stage == IdleWaitFailed || stage == IntroFailed ==> ready == []) &&
    command == if stage == CommandFailed || stage == CommandWritten then [Out(DATA_PORT, FanCommand(on))] else []
  }

  /** Filtering a run of setFan piece by piece. */
  lemma FilterRun(p: Event -> bool, a: seq<Event>, b: seq<Event>, c: seq<Event>, d: seq<Event>, e: seq<Event>)
    ensures Filter([HandleOpened] + a + b + c + d + e + [HandleClosed], p)
         == Filter([HandleOpened], p) + Filter(a, p) + Filter(b, p) + Filter(c, p)
            + Filter(d, p) + Filter(e, p) + Filter([HandleClosed], p)
  {
    FilterAppend([HandleOpened], a, p);
    FilterAppend([HandleOpened] + a, b, p);
    FilterAppend([HandleOpened] + a + b, c, p);
    FilterAppend([HandleOpened] + a + b + c, d, p);
    FilterAppend([HandleOpened] + a + b + c + d, e, p);
    FilterAppend([HandleOpened] + a + b + c + d + e, [HandleClosed], p);
  }

  /** A wait adds only status reads: no write, no handle event. */
  lemma WaitAdds(env: Env, h: Handle, s: St, mask: bv32, expected: byte) returns (e: seq<Event>)
    ensures var w := WaitOutcome(env, h, s, mask, expected);
      w.st.trace == s.trace + e && w.st.writeCount == s.writeCount &&
      w.st.closeSequences == s.closeSequences && Silent(e)
  {
    PollFrame(env, h, s, mask, expected, POLL_ATTEMPTS);
    var w := WaitOutcome(env, h, s, mask, expected);
    e := Repeat(In(STATUS_PORT), w.st.readCount - s.readCount);
    FilterRepeat(In(STATUS_PORT), w.st.readCount - s.readCount, IsOut);
    FilterRepeat(In(STATUS_PORT), w.st.readCount - s.readCount, IsDataPortWrite);
    FilterRepeat(In(STATUS_PORT), w.st.readCount - s.readCount, IsHandleEvent);
  }

  /** A handshake adds events of its shape, and succeeds only on a handle the write guard accepts. */
  lemma HandshakeAdds(env: Env, h: Handle, s: St, magic: byte) returns (e: seq<Event>)
    ensures var r := HandshakeOutcome(env, h, s, magic);
      r.st.trace == s.trace + e && r.st.closeSequences == s.closeSequences &&
      HandshakeShape(e, Out(COMMAND_PORT, magic), r.ok) && (r.ok ==> h.raw >= 0)
  {
    HandshakeEffect(env, h, s, magic);
    var r := HandshakeOutcome(env, h, s, magic);
    var wrote := HandshakeReady(env, h, s) && h.raw >= 0;
    e := HandshakeEvents(r.st.readCount - s.readCount, wrote, magic);
    HandshakeEventsFilters(r.st.readCount - s.readCount, wrote, magic);
  }

  // ---------------------------------------------------------------------
  // The body of setFan

  /** The steps before the close handshake, piece by piece. */
  lemma BodyPieces(env: Env, h: Handle, s: St, on: bool)
    returns (idle: seq<Event>, intro: seq<Event>, ready: seq<Event>, command: seq<Event>)
    ensures var b := BodyOutcome(env, h, s, on);
      b.st.trace == s.trace + idle + intro + ready + command &&
      b.st.closeSequences == s.closeSequences && b.stage != OpenFailed &&
      BodyShape(b.stage, idle, intro, ready, command, on)
  {
    var w1 := WaitOutcome(env, h, s, IDLE_MASK, 0x00);
    idle := WaitAdds(env, h, s, IDLE_MASK, 0x00);
    intro, ready, command := [], [], [];
    if w1.ok {
      var i := IntroOutcome(env, h, w1.st);
      intro := HandshakeAdds(env, h, w1.st, INTRO_COMMAND);
      if i.ok {
        var w2 := WaitOutcome(env, h, i.st, READY_MASK, 0x00);
        ready := WaitAdds(env, h, i.st, READY_MASK, 0x00);
        if w2.ok {
          command := [Out(DATA_PORT, FanCommand(on))];
        }
      }
    }
  }

  // ---------------------------------------------------------------------
  // A run of setFan, assembled from its pieces

  /** The events of a run of setFan after the trace `pre` it started from. */
  lemma SliceRun(pre: seq<Event>, idle: seq<Event>, intro: seq<Event>, ready: seq<Event>,
                 command: seq<Event>, close: seq<Event>)
    ensures var added := [HandleOpened] + idle + intro + ready + command + close + [HandleClosed];
      pre + [HandleOpened] + idle + intro + ready + command + close + [HandleClosed] == pre + added &&
      (pre + added)[|pre|..] == added
  {
    var p1 := [HandleOpened] + idle;
    var p2 := p1 + intro;
    var p3 := p2 + ready;
    var p4 := p3 + command;
    var p5 := p4 + close;
    AppendAssoc(pre, [HandleOpened], idle);
    AppendAssoc(pre, p1, intro);
    AppendAssoc(pre, p2, ready);
    AppendAssoc(pre, p3, command);
    AppendAssoc(pre, p4, close);
    AppendAssoc(pre, p5, [HandleClosed]);
  }

  /** A run of setFan starts with the open and ends with the close handshake's last event and the release. */
  lemma RunEnds(idle: seq<Event>, intro: seq<Event>, ready: seq<Event>, command: seq<Event>, close: seq<Event>)
    ensures var added := [HandleOpened] + idle + intro + ready + command + close + [HandleClosed];
      |added| >= 2 && added[0] == HandleOpened && added[|added| - 1] == HandleClosed &&
      (close != [] ==> added[|added| - 2] == close[|close| - 1])
  {
  }

  /** A run of setFan opens the handle first, releases it last, and has no other handle event. */
  lemma RunHandles(idle: seq<Event>, intro: seq<Event>, ready: seq<Event>, command: seq<Event>, close: seq<Event>)
    requires Silent(idle) && Silent(ready)
    requires Filter(intro, IsHandleEvent) == [] && Filter(close, IsHandleEvent) == []
    requires forall e :: e in command ==> e.Out?
    ensures Filter([HandleOpened] + idle + intro + ready + command + close + [HandleClosed], IsHandleEvent)
         == [HandleOpened, HandleClosed]
  {
    FilterRun(IsHandleEvent, idle, intro, ready, command, close);
    FilterNone(command, IsHandleEvent);
    assert Filter([HandleOpened], IsHandleEvent) == [HandleOpened];
    assert Filter([HandleClosed], IsHandleEvent) == [HandleClosed];
    KeepEnds(Filter([HandleOpened], IsHandleEvent), Filter(idle, IsHandleEvent), Filter(intro, IsHandleEvent),
             Filter(ready, IsHandleEvent), Filter(command, IsHandleEvent), Filter(close, IsHandleEvent),
             Filter([HandleClosed], IsHandleEvent));
  }

  /** The data-port writes of a run of setFan are the fan command's. */
  lemma RunDataWrites(idle: seq<Event>, intro: seq<Event>, ready: seq<Event>, command: seq<Event>, close: seq<Event>)
    requires Silent(idle) && Silent(ready)
    requires Filter(intro, IsDataPortWrite) == [] && Filter(close, IsDataPortWrite) == []
    requires forall e :: e in command ==> e.Out? && e.port == DATA_PORT
    ensures Filter([HandleOpened] + idle + intro + ready + command + close + [HandleClosed], IsDataPortWrite)
         == command
  {
    FilterRun(IsDataPortWrite, idle, intro, ready, command, close);
    FilterAll(command, IsDataPortWrite);
    assert Filter([HandleOpened], IsDataPortWrite) == [] && Filter([HandleClosed], IsDataPortWrite) == [];
    KeepEnds(Filter([HandleOpened], IsDataPortWrite), Filter(idle, IsDataPortWrite), Filter(intro, IsDataPortWrite),
             Filter(ready, IsDataPortWrite), Filter(close, IsDataPortWrite), Filter([HandleClosed], IsDataPortWrite),
             command);
    assert Filter(command, IsDataPortWrite) == command;
  }

  /** The writes of a run of setFan are those of the intro handshake, the fan command and the close handshake. */
  lemma RunOuts(idle: seq<Event>, intro: seq<Event>, ready: seq<Event>, command: seq<Event>, close: seq<Event>)
    requires Silent(idle) && Silent(ready)
    requires forall e :: e in command ==> e.Out?
    ensures Filter([HandleOpened] + idle + intro + ready + command + close + [HandleClosed], IsOut)
         == Filter(intro, IsOut) + command + Filter(close, IsOut)
  {
    FilterRun(IsOut, idle, intro, ready, command, close);
    FilterAll(command, IsOut);
    assert Filter([HandleOpened], IsOut) == [] && Filter([HandleClosed], IsOut) == [];
    DropEmpties(Filter([HandleOpened], IsOut), Filter(idle, IsOut), Filter(intro, IsOut), Filter(ready, IsOut),
                command, Filter(close, IsOut), Filter([HandleClosed], IsOut));
  }

  /**
   * The writes of a run of setFan by stage, assembled from those of the
   * intro handshake (fI), the fan command (fC) and the close handshake (fF).
   */
  lemma StageWrites(stage: Stage, closed: bool, fI: seq<Event>, fC: seq<Event>, fF: seq<Event>, on: bool)
    requires fI == [] || fI == [Out(COMMAND_PORT, INTRO_COMMAND)]
    requires stage == IdleWaitFailed ==> fI == []
    requires stage != IdleWaitFailed && stage != IntroFailed ==> fI == [Out(COMMAND_PORT, INTRO_COMMAND)]
    requires fC == if stage == CommandFailed || stage == CommandWritten then [Out(DATA_PORT, FanCommand(on))] else []
    requires fF == [] || fF == [Out(COMMAND_PORT, CLOSE_COMMAND)]
    requires closed ==> fF == [Out(COMMAND_PORT, CLOSE_COMMAND)]
    ensures var I := Out(COMMAND_PORT, INTRO_COMMAND);
      var C := Out(DATA_PORT, FanCommand(on));
      var F := Out(COMMAND_PORT, CLOSE_COMMAND);
      var w := fI + fC + fF;
      (stage == IdleWaitFailed ==> w == [] || w == [F]) &&
      (stage == IntroFailed ==> w == [] || w == [F] || w == [I] || w == [I, F]) &&
      (stage == ReadyWaitFailed ==> w == [I] || w == [I, F]) &&
      (stage == CommandFailed || stage == CommandWritten ==> w == [I, C] || w == [I, C, F]) &&
      (closed ==> |w| > 0 && w[|w| - 1] == F)
  {
  }

  /**
   * A run of setFan whose pieces have these shapes, added to `pre`: the
   * handle events are its first and last, and the close byte comes last
   * before the release when the close handshake succeeded.
   */
  lemma RunCleanup(stage: Stage, closed: bool, trace: seq<Event>, pre: seq<Event>, idle: seq<Event>, intro: seq<Event>,
                 ready: seq<Event>, command: seq<Event>, close: seq<Event>, on: bool)
    requires trace == pre + [HandleOpened] + idle + intro + ready + command + close + [HandleClosed]
    requires BodyShape(stage, idle, intro, ready, command, on)
    requires HandshakeShape(close, Out(COMMAND_PORT, CLOSE_COMMAND), closed)
    ensures Extends(pre, trace)
    ensures var added := trace[|pre|..];
      |added| >= 2 && added[0] == HandleOpened && added[|added| - 1] == HandleClosed &&
      Filter(added, IsHandleEvent) == [HandleOpened, HandleClosed] &&
      (closed ==> added[|added| - 2] == Out(COMMAND_PORT, CLOSE_COMMAND))
  {
    SliceRun(pre, idle, intro, ready, command, close);
    assert trace[|pre|..] == [HandleOpened] + idle + intro + ready + command + close + [HandleClosed];
    RunEnds(idle, intro, ready, command, close);
    RunHandles(idle, intro, ready, command, close);
  }

  /** A run of setFan whose pieces have these shapes writes to the data port only its fan command. */
  lemma RunData(stage: Stage, closed: bool, trace: seq<Event>, pre: seq<Event>, idle: seq<Event>, intro: seq<Event>,
                 ready: seq<Event>, command: seq<Event>, close: seq<Event>, on: bool)
    requires trace == pre + [HandleOpened] + idle + intro + ready + command + close + [HandleClosed]
    requires BodyShape(stage, idle, intro, ready, command, on)
    requires HandshakeShape(close, Out(COMMAND_PORT, CLOSE_COMMAND), closed)
    ensures Extends(pre, trace)
    ensures Filter(trace[|pre|..], IsDataPortWrite) == command
  {
    SliceRun(pre, idle, intro, ready, command, close);
    assert trace[|pre|..] == [HandleOpened] + idle + intro + ready + command + close + [HandleClosed];
    RunDataWrites(idle, intro, ready, command, close);
  }

  /** The writes of a run of setFan whose pieces have these shapes, by stage. */
  lemma RunWrites(stage: Stage, closed: bool, trace: seq<Event>, pre: seq<Event>, idle: seq<Event>, intro: seq<Event>,
                 ready: seq<Event>, command: seq<Event>, close: seq<Event>, on: bool)
    requires trace == pre + [HandleOpened] + idle + intro + ready + command + close + [HandleClosed]
    requires BodyShape(stage, idle, intro, ready, command, on)
    requires HandshakeShape(close, Out(COMMAND_PORT, CLOSE_COMMAND), closed)
    ensures Extends(pre, trace)
    ensures var I := Out(COMMAND_PORT, INTRO_COMMAND);
      var C := Out(DATA_PORT, FanCommand(on));
      var F := Out(COMMAND_PORT, CLOSE_COMMAND);
      var w := Filter(trace[|pre|..], IsOut);
      (stage == IdleWaitFailed ==> w == [] || w == [F]) &&
      (stage == IntroFailed ==> w == [] || w == [F] || w == [I] || w == [I, F]) &&
      (stage == ReadyWaitFailed ==> w == [I] || w == [I, F]) &&
      (stage == CommandFailed || stage == CommandWritten ==> w == [I, C] || w == [I, C, F]) &&
      (closed ==> |w| > 0 && w[|w| - 1] == F)
  {
    SliceRun(pre, idle, intro, ready, command, close);
    assert trace[|pre|..] == [HandleOpened] + idle + intro + ready + command + close + [HandleClosed];
    RunOuts(idle, intro, ready, command, close);
    StageWrites(stage, closed, Filter(intro, IsOut), command, Filter(close, IsOut), on);
  }

  // ---------------------------------------------------------------------
  // setFan

  /**
   * After a successful open, a run of setFan is the open, the body, the
   * close handshake (which also counts itself) and the release of the handle.
   */
  lemma SetFanSplit(env: Env, created: Handle, s: St, on: bool) returns (b: Body, c: Step)
    requires created != INVALID_HANDLE_VALUE
    ensures b == BodyOutcome(env, created, s.(trace := s.trace + [HandleOpened]), on)
    ensures c == HandshakeOutcome(env, created, b.st.(closeSequences := b.st.closeSequences + 1), CLOSE_COMMAND)
    ensures SetFanOutcome(env, created, s, on) == Run(true, b.stage, c.ok, c.st.(trace := c.st.trace + [HandleClosed]))
  {
    b := BodyOutcome(env, created, s.(trace := s.trace + [HandleOpened]), on);
    c := HandshakeOutcome(env, created, b.st.(closeSequences := b.st.closeSequences + 1), CLOSE_COMMAND);
  }

  /**
   * A run of setFan after a successful open is the open, pieces of these
   * shapes, and the release; it starts the close handshake once.
   */
  lemma SetFanRun(env: Env, created: Handle, s: St, on: bool)
      returns (idle: seq<Event>, intro: seq<Event>, ready: seq<Event>, command: seq<Event>, close: seq<Event>)
    requires created != INVALID_HANDLE_VALUE
    ensures var r := SetFanOutcome(env, created, s, on);
      r.st.closeSequences == s.closeSequences + 1 &&
      r.st.trace == s.trace + [HandleOpened] + idle + intro + ready + command + close + [HandleClosed] &&
      BodyShape(r.stage, idle, intro, ready, command, on) &&
      HandshakeShape(close, Out(COMMAND_PORT, CLOSE_COMMAND), r.closed)
  {
    var b, c := SetFanSplit(env, created, s, on);
    idle, intro, ready, command := BodyPieces(env, created, s.(trace := s.trace + [HandleOpened]), on);
    close := HandshakeAdds(env, created, b.st.(closeSequences := b.st.closeSequences + 1), CLOSE_COMMAND);
  }

  /** If the driver cannot be opened, setFan makes no transaction and releases nothing. */
  lemma SetFanOpenFailure(env: Env, s: St, on: bool)
    ensures var r := SetFanOutcome(env, INVALID_HANDLE_VALUE, s, on);
      r.st == s && r.stage == OpenFailed && r.ret
  {
  }

  /**
   * Once the driver is open, whichever step failed: the handle is opened
   * first and released last, each exactly once; the close handshake is
   * started exactly once; when it succeeds, its 0xFF byte is the last thing
   * before the release.
   */
  lemma SetFanCleanup(env: Env, created: Handle, s: St, on: bool)
    requires created != INVALID_HANDLE_VALUE
    ensures var r := SetFanOutcome(env, created, s, on);
      Extends(s.trace, r.st.trace) &&
      var added := r.st.trace[|s.trace|..];
      |added| >= 2 && added[0] == HandleOpened && added[|added| - 1] == HandleClosed &&
      Filter(added, IsHandleEvent) == [HandleOpened, HandleClosed] &&
      r.st.closeSequences == s.closeSequences + 1 &&
      (r.closed ==> added[|added| - 2] == Out(COMMAND_PORT, CLOSE_COMMAND))
  {
    var r := SetFanOutcome(env, created, s, on);
    var idle, intro, ready, command, close := SetFanRun(env, created, s, on);
    RunCleanup(r.stage, r.closed, r.st.trace, s.trace, idle, intro, ready, command, close, on);
  }

  /**
   * The only byte setFan ever writes to the data port 0x68 is the fan
   * command for `on`, and it writes it once, exactly when the idle wait,
   * the intro handshake and the ready wait all succeeded.
   */
  lemma SetFanDataPortWrites(env: Env, created: Handle, s: St, on: bool)
    ensures var r := SetFanOutcome(env, created, s, on);
      Extends(s.trace, r.st.trace) &&
      Filter(r.st.trace[|s.trace|..], IsDataPortWrite)
        == if r.stage == CommandFailed || r.stage == CommandWritten
           then [Out(DATA_PORT, FanCommand(on))] else []
  {
    var r := SetFanOutcome(env, created, s, on);
    if created != INVALID_HANDLE_VALUE {
      var idle, intro, ready, command, close := SetFanRun(env, created, s, on);
      RunData(r.stage, r.closed, r.st.trace, s.trace, idle, intro, ready, command, close, on);
    } else {
      assert r.st.trace[|s.trace|..] == [];
    }
  }

  /**
   * Everything setFan writes, by the stage where its body stopped: no write
   * that depends on a failed step happens, and only the close byte can
   * follow. I is the intro byte, C the fan command, F the close byte.
   */
  lemma SetFanWrites(env: Env, created: Handle, s: St, on: bool)
    ensures var r := SetFanOutcome(env, created, s, on);
      var I := Out(COMMAND_PORT, INTRO_COMMAND);
      var C := Out(DATA_PORT, FanCommand(on));
      var F := Out(COMMAND_PORT, CLOSE_COMMAND);
      Extends(s.trace, r.st.trace) &&
      var w := Filter(r.st.trace[|s.trace|..], IsOut);
      (r.stage == OpenFailed ==> w == []) &&
      (r.stage == IdleWaitFailed ==> w == [] || w == [F]) &&
      (r.stage == IntroFailed ==> w == [] || w == [F] || w == [I] || w == [I, F]) &&
      (r.stage == ReadyWaitFailed ==> w == [I] || w == [I, F]) &&
      (r.stage == CommandFailed || r.stage == CommandWritten ==> w == [I, C] || w == [I, C, F]) &&
      (r.closed ==> |w| > 0 && w[|w| - 1] == F)
  {
    var r := SetFanOutcome(env, created, s, on);
    if created != INVALID_HANDLE_VALUE {
      var idle, intro, ready, command, close := SetFanRun(env, created, s, on);
      RunWrites(r.stage, r.closed, r.st.trace, s.trace, idle, intro, ready, command, close, on);
    } else {
      assert r.st.trace[|s.trace|..] == [];
    }
  }

  /**
   * A fully successful run writes exactly the intro byte to 0x6C, the fan
   * command to 0x68 and the close byte to 0x6C, in that order.
   */
  lemma SetFanSuccessWrites(env: Env, created: Handle, s: St, on: bool)
    requires SetFanOutcome(env, created, s, on).stage == CommandWritten
    requires SetFanOutcome(env, created, s, on).closed
    ensures var r := SetFanOutcome(env, created, s, on);
      Extends(s.trace, r.st.trace) &&
      Filter(r.st.trace[|s.trace|..], IsOut)
        == [Out(COMMAND_PORT, INTRO_COMMAND), Out(DATA_PORT, FanCommand(on)), Out(COMMAND_PORT, CLOSE_COMMAND)]
  {
    SetFanWrites(env, created, s, on);
  }

  /**
   * A device that is always idle and ready and acknowledges every write:
   * setFan succeeds with one status read per wait, and this exact trace.
   */
  lemma SetFanIdleDevice(env: Env, created: Handle, s: St, on: bool)
    requires created.raw > 0
    requires forall n :: Delivered(env.readReply(n))
    requires forall n :: Matches(env.readReply(n).data, IDLE_MASK, 0x00) && Matches(env.readReply(n).data, READY_MASK, 0x00)
    requires forall n :: env.writeReply(n)
    ensures var r := SetFanOutcome(env, created, s, on);
      r.stage == CommandWritten && r.closed &&
      r.st.trace == s.trace + [HandleOpened,
                               In(STATUS_PORT),
                               In(DATA_PORT), In(STATUS_PORT), Out(COMMAND_PORT, INTRO_COMMAND),
                               In(STATUS_PORT), Out(DATA_PORT, FanCommand(on)),
                               In(DATA_PORT), In(STATUS_PORT), Out(COMMAND_PORT, CLOSE_COMMAND),
                               HandleClosed]
  {
    var s1 := s.(trace := s.trace + [HandleOpened]);
    WaitFirstReadMatches(env, created, s1, IDLE_MASK, 0x00);
    var idle := WaitOutcome(env, created, s1, IDLE_MASK, 0x00);
    var rd := ReadOutcome(env, created, idle.st, DATA_PORT, 0);
    WaitFirstReadMatches(env, created, rd.st, READY_MASK, 0x00);
    var intro := IntroOutcome(env, created, idle.st);
    WaitFirstReadMatches(env, created, intro.st, READY_MASK, 0x00);
    var ready := WaitOutcome(env, created, intro.st, READY_MASK, 0x00);
    var cmd := WriteOutcome(env, created, ready.st, DATA_PORT, FanCommand(on));
    var cs := cmd.st.(closeSequences := cmd.st.closeSequences + 1);
    var rd2 := ReadOutcome(env, created, cs, DATA_PORT, 0);
    WaitFirstReadMatches(env, created, rd2.st, READY_MASK, 0x00);
  }
}
