/**
 * The LPC-filter driver as FanController sees it: a handle that can be
 * opened and released, and byte transactions on I/O ports. The driver's
 * answers are fixed in advance (the oracle of EcModel); the object records
 * what was asked of it.
 */
module LpcFilter {
  import opened EcModel

  class Device {
    /** The answer to the n-th read transaction (DeviceIoControl, code 0x800). */
    const readReply: nat -> Transfer
    /** The status of the n-th write transaction (DeviceIoControl, code 0x801). */
    const writeReply: nat -> bool
    /** The handle that opening `\\.\LPCFilter` yields. */
    const createReply: Handle

    var trace: seq<Event>
    var readCount: nat
    var writeCount: nat
    /** How often the close handshake has been started (bookkeeping only). */
    ghost var closeSequences: nat

    /** The driver's answers as an oracle. */
    function Replies(): Env {
      Env(readReply, writeReply)
    }

    /** The recorded state, as the reference semantics sees it. */
    ghost function State(): St
      reads this
    {
      St(trace, readCount, writeCount, closeSequences)
    }

    constructor (readReply: nat -> Transfer, writeReply: nat -> bool, createReply: Handle)
      ensures Replies() == Env(readReply, writeReply) && this.createReply == createReply
      ensures State() == St([], 0, 0, 0)
    {
      this.readReply := readReply;
      this.writeReply := writeReply;
      this.createReply := createReply;
      trace := [];
      readCount := 0;
      writeCount := 0;
      closeSequences := 0;
    }

    /** CreateFileA on the driver: yields the prepared handle; a valid one is recorded as opened. */
    method Open() returns (h: Handle)
      modifies this
      ensures h == createReply
      ensures State() == if h == INVALID_HANDLE_VALUE then old(State())
                         else old(State()).(trace := old(trace) + [HandleOpened])
    {
      h := createReply;
      if h != INVALID_HANDLE_VALUE {
        trace := trace + [HandleOpened];
      }
    }

    /** CloseHandle: the release is recorded. */
    method Close(h: Handle)
      modifies this
      ensures State() == old(State()).(trace := old(trace) + [HandleClosed])
    {
      trace := trace + [HandleClosed];
    }

    /** One read transaction on `port`: answers the next read reply. */
    method TransactRead(port: byte) returns (t: Transfer)
      modifies this
      ensures t == readReply(old(readCount))
      ensures State() == old(State()).(trace := old(trace) + [In(port)], readCount := old(readCount) + 1)
    {
      t := readReply(readCount);
      trace := trace + [In(port)];
      readCount := readCount + 1;
    }

    /** One write transaction of `value` to `port`: reports the next write status. */
    method TransactWrite(port: byte, value: byte) returns (ok: bool)
      modifies this
      ensures ok == writeReply(old(writeCount))
      ensures State() == old(State()).(trace := old(trace) + [Out(port, value)], writeCount := old(writeCount) + 1)
    {
      ok := writeReply(writeCount);
      trace := trace + [Out(port, value)];
      writeCount := writeCount + 1;
    }

    /** Records that the close handshake has been started. */
    ghost method NoteCloseSequence()
      modifies this
      ensures State() == old(State()).(closeSequences := old(closeSequences) + 1)
    {
      closeSequences := closeSequences + 1;
    }
  }
}
