/**
 * Reference semantics of the embedded-controller (EC) access protocol that
 * FanController uses on Windows: byte reads and writes on numbered I/O ports
 * through the LPC-filter driver, a bounded spin-poll on the status port, the
 * intro and close handshakes, and the fan-setting transaction.
 *
 * The driver is an oracle: the n-th read transaction answers readReply(n)
 * and the n-th write transaction reports writeReply(n). Every transaction
 * that reaches the driver is logged in the trace, as are the opening and the
 * closing of the driver handle.
 */
module EcModel {

  /** An 8-bit register value or port number (`unsigned char`, `BYTE`). */
  type byte = bv8

  // The vendor EC's port map and command bytes.
  const STATUS_PORT: byte := 0x6C
  const COMMAND_PORT: byte := 0x6C
  const DATA_PORT: byte := 0x68
  const READY_MASK: bv32 := 0x02
  const IDLE_MASK: bv32 := 0x80
  const INTRO_COMMAND: byte := 0x59
  const CLOSE_COMMAND: byte := 0xFF
  const FAN_MAX: byte := 0x77
  const FAN_NORMAL: byte := 0x76

  /** How many status reads the spin-poll makes before it gives up. */
  const POLL_ATTEMPTS: nat := 20000

  /** A driver handle, seen as its numeric value. */
  datatype Handle = Handle(raw: int)

  /** What CreateFileA returns when the driver cannot be opened. */
  const INVALID_HANDLE_VALUE: Handle := Handle(-1)

  /** What one read transaction reports: call status, bytes returned, the byte. */
  datatype Transfer = Transfer(status: bool, bytesReturned: nat, data: byte)

  /** The driver's answers, indexed by the number of earlier transactions of that kind. */
  datatype Env = Env(readReply: nat -> Transfer, writeReply: nat -> bool)

  /** What can be observed of a run. */
  datatype Event = HandleOpened | In(port: byte) | Out(port: byte, value: byte) | HandleClosed

  /**
   * Device-side state: the event trace, how many read and write transactions
   * have been made (the oracle's cursors), and how often the close handshake
   * has been started.
   */
  datatype St = St(trace: seq<Event>, readCount: nat, writeCount: nat, closeSequences: nat)

  /** Result of read_uchar: success flag, the caller's byte afterwards, new state. */
  datatype ReadResult = ReadResult(ok: bool, value: byte, st: St)

  /** Result of a step that only reports success. */
  datatype Step = Step(ok: bool, st: St)

  /** Where the fan-setting transaction stopped before its close handshake. */
  datatype Stage =
    | OpenFailed       // the driver could not be opened; nothing else ran
    | IdleWaitFailed   // the wait for bit 0x80 to clear failed
    | IntroFailed      // the intro handshake failed
    | ReadyWaitFailed  // the second wait for bit 0x02 to clear failed
    | CommandFailed    // the fan command byte was handed to the driver, which refused it
    | CommandWritten   // the fan command byte was written

  datatype Body = Body(stage: Stage, st: St)

  /** Result of setFan: its return value, its stage, whether the close handshake succeeded. */
  datatype Run = Run(ret: bool, stage: Stage, closed: bool, st: St)

  /** A read transaction succeeded: the call worked and exactly one byte came back. */
  predicate Delivered(t: Transfer) {
    t.status && t.bytesReturned == 1
  }

  /** The poll condition `(currentValue & bitmask) == value`, in 32-bit unsigned arithmetic. */
  predicate Matches(v: byte, mask: bv32, expected: byte) {
    (v as bv32) & mask == expected as bv32
  }

  /** The n-th read delivers a byte that satisfies the poll condition. */
  predicate Hit(env: Env, n: nat, mask: bv32, expected: byte) {
    Delivered(env.readReply(n)) && Matches(env.readReply(n).data, mask, expected)
  }

  /** The n-th read delivers a byte that does not satisfy the poll condition. */
  predicate Miss(env: Env, n: nat, mask: bv32, expected: byte) {
    Delivered(env.readReply(n)) && !Matches(env.readReply(n).data, mask, expected)
  }

  /** The fan command byte: maximum speed when `on`, normal speed otherwise. */
  function FanCommand(on: bool): byte {
    if on then FAN_MAX else FAN_NORMAL
  }

  // ---------------------------------------------------------------------
  // Trace helpers

  function Repeat<T>(x: T, n: nat): (r: seq<T>)
    ensures |r| == n
    ensures forall i :: 0 <= i < n ==> r[i] == x
  {
    if n == 0 then [] else [x] + Repeat(x, n - 1)
  }

  /** The elements of `s` that satisfy `p`, in order. */
  function Filter(s: seq<Event>, p: Event -> bool): seq<Event> {
    if s == [] then [] else (if p(s[0]) then [s[0]] else []) + Filter(s[1..], p)
  }

  predicate Extends(prefix: seq<Event>, s: seq<Event>) {
    |prefix| <= |s| && s[..|prefix|] == prefix
  }

  predicate IsOut(e: Event) { e.Out? }
  predicate IsDataPortWrite(e: Event) { e.Out? && e.port == DATA_PORT }
  predicate IsHandleEvent(e: Event) { e.HandleOpened? || e.HandleClosed? }

  // ---------------------------------------------------------------------
  // The protocol, layer by layer

  /**
   * read_uchar: a null handle fails without a transaction; otherwise one read
   * transaction, which succeeds only when it delivers exactly one byte. On
   * failure the caller's byte `prior` is left as it was.
   */
  function ReadOutcome(env: Env, h: Handle, s: St, port: byte, prior: byte): ReadResult {
    if h.raw == 0 then ReadResult(false, prior, s)
    else
      var t := env.readReply(s.readCount);
      var s' := s.(trace := s.trace + [In(port)], readCount := s.readCount + 1);
      if Delivered(t) then ReadResult(true, t.data, s') else ReadResult(false, prior, s')
  }

  /** write_uchar: a negative handle fails without a transaction; otherwise one write transaction. */
  function WriteOutcome(env: Env, h: Handle, s: St, port: byte, value: byte): Step {
    if h.raw < 0 then Step(false, s)
    else Step(env.writeReply(s.writeCount), s.(trace := s.trace + [Out(port, value)], writeCount := s.writeCount + 1))
  }

  /** The spin-poll with `left` attempts remaining. */
  function PollOutcome(env: Env, h: Handle, s: St, mask: bv32, expected: byte, left: nat): Step
    decreases left
  {
    if left == 0 then Step(false, s)
    else
      var r := ReadOutcome(env, h, s, STATUS_PORT, 0);
      if !r.ok then Step(false, r.st)
      else if Matches(r.value, mask, expected) then Step(true, r.st)
      else PollOutcome(env, h, r.st, mask, expected, left - 1)
  }

  /** wait_until_bitmask_is_value: the spin-poll with its full budget of attempts. */
  function WaitOutcome(env: Env, h: Handle, s: St, mask: bv32, expected: byte): Step {
    PollOutcome(env, h, s, mask, expected, POLL_ATTEMPTS)
  }

  /** The shape both handshakes share: read 0x68, wait for bit 0x02 to clear, write `magic` to 0x6C. */
  function HandshakeOutcome(env: Env, h: Handle, s: St, magic: byte): Step {
    var r := ReadOutcome(env, h, s, DATA_PORT, 0);
    if !r.ok then Step(false, r.st)
    else
      var w := WaitOutcome(env, h, r.st, READY_MASK, 0x00);
      if !w.ok then Step(false, w.st)
      else WriteOutcome(env, h, w.st, COMMAND_PORT, magic)
  }

  /** The first two steps of a handshake succeed from state `s`. */
  predicate HandshakeReady(env: Env, h: Handle, s: St) {
    var r := ReadOutcome(env, h, s, DATA_PORT, 0);
    r.ok && WaitOutcome(env, h, r.st, READY_MASK, 0x00).ok
  }

  /** ec_intro_sequence. */
  function IntroOutcome(env: Env, h: Handle, s: St): Step {
    HandshakeOutcome(env, h, s, INTRO_COMMAND)
  }

  /** ec_close_sequence; it also counts that the close handshake was started. */
  function CloseOutcome(env: Env, h: Handle, s: St): Step {
    HandshakeOutcome(env, h, s.(closeSequences := s.closeSequences + 1), CLOSE_COMMAND)
  }

  /** The steps of setFan between opening the driver and the close handshake. */
  function BodyOutcome(env: Env, h: Handle, s: St, on: bool): Body {
    var idle := WaitOutcome(env, h, s, IDLE_MASK, 0x00);
    if !idle.ok then Body(IdleWaitFailed, idle.st)
    else
      var intro := IntroOutcome(env, h, idle.st);
      if !intro.ok then Body(IntroFailed, intro.st)
      else
        var ready := WaitOutcome(env, h, intro.st, READY_MASK, 0x00);
        if !ready.ok then Body(ReadyWaitFailed, ready.st)
        else
          var cmd := WriteOutcome(env, h, ready.st, DATA_PORT, FanCommand(on));
          Body(if cmd.ok then CommandWritten else CommandFailed, cmd.st)
  }

  /**
   * setFan (Windows): `created` is what opening the driver returned. After a
   * successful open, the close handshake and the release of the handle run
   * whatever the body did. The return value is true on every path.
   */
  function SetFanOutcome(env: Env, created: Handle, s: St, on: bool): (r: Run)
    ensures r.ret
    ensures r.stage == OpenFailed <==> created == INVALID_HANDLE_VALUE
  {
    if created == INVALID_HANDLE_VALUE then Run(true, OpenFailed, false, s)
    else
      var afterOpen := s.(trace := s.trace + [HandleOpened]);
      var body := BodyOutcome(env, created, afterOpen, on);
      var close := CloseOutcome(env, created, body.st);
      Run(true, body.stage, close.ok, close.st.(trace := close.st.trace + [HandleClosed]))
  }
}
