/**
 * FanController's Windows code path: the port primitives, the spin-poll,
 * the two handshakes and setFan, each run against a Device and proved to
 * behave as the reference semantics of EcModel says.
 */
module FanController {
  import opened EcModel
  import opened EcProperties
  import opened LpcFilter

  /** The poll's loop counter (`WORD`, 16 bits unsigned). */
  newtype Word = x: int | 0 <= x < 0x1_0000

  /**
   * read_uchar: reads one byte from `port`. `prior` is the caller's byte
   * before the call, and `value` the caller's byte afterwards: it changes
   * only on success.
   */
  method ReadUchar(dev: Device, h: Handle, port: byte, prior: byte) returns (ok: bool, value: byte)
    modifies dev
    ensures var r := ReadOutcome(dev.Replies(), h, old(dev.State()), port, prior);
      ok == r.ok && value == r.value && dev.State() == r.st
    ensures ok <==> h.raw != 0 && Delivered(dev.readReply(old(dev.readCount)))
    ensures value == if ok then dev.readReply(old(dev.readCount)).data else prior
    ensures h.raw == 0 ==> dev.State() == old(dev.State())
  {
    if h.raw == 0 {
      return false, prior;
    }
    var t := dev.TransactRead(port);
    if !t.status || t.bytesReturned != 1 {
      return false, prior;
    }
    return true, t.data;
  }

  /** write_uchar: writes `value` to `port`. */
  method WriteUchar(dev: Device, h: Handle, port: byte, value: byte) returns (ok: bool)
    modifies dev
    ensures var w := WriteOutcome(dev.Replies(), h, old(dev.State()), port, value);
      ok == w.ok && dev.State() == w.st
    ensures ok <==> h.raw >= 0 && dev.writeReply(old(dev.writeCount))
    ensures dev.readCount == old(dev.readCount)
  {
    if h.raw < 0 {
      return false;
    }
    ok := dev.TransactWrite(port, value);
  }

  /**
   * wait_until_bitmask_is_value: reads the status port until
   * `(byte & bitmask) == value`, at most POLL_ATTEMPTS times; a failed read
   * ends the poll.
   */
  method WaitUntilBitmaskIsValue(dev: Device, h: Handle, bitmask: bv32, value: byte) returns (ok: bool)
    modifies dev
    ensures var w := WaitOutcome(dev.Replies(), h, old(dev.State()), bitmask, value);
      ok == w.ok && dev.State() == w.st
    ensures old(dev.readCount) <= dev.readCount <= old(dev.readCount) + POLL_ATTEMPTS
    ensures dev.trace == old(dev.trace) + Repeat(In(STATUS_PORT), dev.readCount - old(dev.readCount))
    ensures dev.writeCount == old(dev.writeCount)
  {
    ghost var s0 := dev.State();
    PollFrame(dev.Replies(), h, s0, bitmask, value, POLL_ATTEMPTS);
    var currentValue: byte := 0;
    var i: Word := 0;
    while i < 20000
      invariant i as int <= POLL_ATTEMPTS
      invariant PollOutcome(dev.Replies(), h, dev.State(), bitmask, value, POLL_ATTEMPTS - i as int)
             == WaitOutcome(dev.Replies(), h, s0, bitmask, value)
    {
      var read;
      read, currentValue := ReadUchar(dev, h, STATUS_PORT, currentValue);
      if !read {
        return false;
      }
      if Matches(currentValue, bitmask, value) {
        return true;
      }
      i := i + 1;
    }
    return false;
  }

  /** The steps ec_intro_sequence and ec_close_sequence share. */
  method Handshake(dev: Device, h: Handle, magic: byte) returns (ok: bool)
    modifies dev
    ensures var r := HandshakeOutcome(dev.Replies(), h, old(dev.State()), magic);
      ok == r.ok && dev.State() == r.st
  {
    var read, value := ReadUchar(dev, h, DATA_PORT, 0);
    if !read {
      return false;
    }
    var ready := WaitUntilBitmaskIsValue(dev, h, READY_MASK, 0x00);
    if !ready {
      return false;
    }
    var wrote := WriteUchar(dev, h, COMMAND_PORT, magic);
    if !wrote {
      return false;
    }
    return true;
  }

  /** ec_intro_sequence: the handshake with the intro byte 0x59. */
  method EcIntroSequence(dev: Device, h: Handle) returns (ok: bool)
    modifies dev
    ensures var r := IntroOutcome(dev.Replies(), h, old(dev.State()));
      ok == r.ok && dev.State() == r.st
  {
    ok := Handshake(dev, h, INTRO_COMMAND);
  }

  /** ec_close_sequence: the handshake with the close byte 0xFF. */
  method EcCloseSequence(dev: Device, h: Handle) returns (ok: bool)
    modifies dev
    ensures var r := CloseOutcome(dev.Replies(), h, old(dev.State()));
      ok == r.ok && dev.State() == r.st
  {
    dev.NoteCloseSequence();
    ok := Handshake(dev, h, CLOSE_COMMAND);
  }

  /**
   * setFan (Windows): opens the driver and, if that worked, waits for the
   * EC, runs the intro handshake, waits again and writes the fan command;
   * the first failure skips to the close handshake and the release of the
   * handle, which run on every path after a successful open.
   */
  method SetFan(dev: Device, on: bool) returns (ret: bool)
    modifies dev
    ensures var r := SetFanOutcome(dev.Replies(), dev.createReply, old(dev.State()), on);
      ret == r.ret && dev.State() == r.st
    ensures ret
  {
    var h := dev.Open();
    if h == INVALID_HANDLE_VALUE {
      return true;
    }
    ghost var env := dev.Replies();
    ghost var spec := BodyOutcome(env, h, dev.State(), on);
    label body: {
      var idle := WaitUntilBitmaskIsValue(dev, h, IDLE_MASK, 0x00);
      if !idle {
        break body;
      }
      var intro := EcIntroSequence(dev, h);
      if !intro {
        break body;
      }
      var ready := WaitUntilBitmaskIsValue(dev, h, READY_MASK, 0x00);
      if !ready {
        break body;
      }
      if on {
        var wrote := WriteUchar(dev, h, DATA_PORT, FAN_MAX);
        if !wrote {
          break body;
        }
      } else {
        var wrote := WriteUchar(dev, h, DATA_PORT, FAN_NORMAL);
        if !wrote {
          break body;
        }
      }
    }
    assert dev.State() == spec.st;
    var closed := EcCloseSequence(dev, h);
    dev.Close(h);
    return true;
  }
}
