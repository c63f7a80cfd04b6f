# FanController EC protocol, modelled in Dafny

FanController switches a laptop fan between normal and full speed. It does
this by talking to the embedded controller (EC) through the vendor's
LPC-filter driver (`\\.\LPCFilter`). This project models the Windows code
path of `fancontroller.cpp`. The model has four layers:

- the byte primitives `read_uchar` and `write_uchar`;
- the bounded spin-poll `wait_until_bitmask_is_value`, at most 20000 reads of
  status port 0x6C;
- the two handshakes `ec_intro_sequence` and `ec_close_sequence`. Each one
  reads port 0x68, waits for bit 0x02 to clear, and writes 0x59 or 0xFF to
  port 0x6C;
- `setFan`. It opens the driver, waits for bit 0x80 to clear, runs the intro
  handshake, waits for bit 0x02, and writes 0x77 (`on`) or 0x76 to port 0x68.
  Every failure after the open jumps to the close handshake and the release of
  the handle.

The driver is an oracle:

- the n-th read transaction answers `readReply(n)`, which holds the call
  status, the bytes returned and the byte;
- the n-th write transaction reports `writeReply(n)`;
- opening the driver yields a prepared handle.

What the program does is recorded as a trace of events: `HandleOpened`,
`In(port)`, `Out(port, value)` and `HandleClosed`. The model also counts how
often the close handshake is started.

The files:

- `EcModel.dfy` is the reference semantics. Each layer is one function from a
  device state to a result and a new state (`ReadOutcome`, `WriteOutcome`,
  `PollOutcome`/`WaitOutcome`, `HandshakeOutcome`, `IntroOutcome`,
  `CloseOutcome`, `BodyOutcome`, `SetFanOutcome`).
- `EcProperties.dfy` proves the protocol's properties about those functions.
- `LpcFilter.dfy` is the driver: a `Device` class whose methods record
  transactions.
- `FanController.dfy` holds the program's own routines as imperative methods.
  `WaitUntilBitmaskIsValue` is a loop with its invariant. `SetFan` uses a
  labelled block: each `goto closing_sequence` becomes a `break`. Each method
  is proved to leave the device in the state the reference semantics gives,
  and to return the result it gives.

## Model

| member | source | states |
|---|---|---|
| `FanController.ReadUchar` | fancontroller.cpp:40-75 | It fails exactly when the handle is null or the transaction does not deliver exactly one byte. On failure the caller's byte is unchanged; otherwise it is the delivered byte. A null handle makes no transaction. |
| `FanController.WriteUchar` | fancontroller.cpp:77-106 | It succeeds exactly when the handle passes the `< 0` guard and the driver acknowledges the write. It makes one write transaction unless the guard rejects the handle. It reads nothing. |
| `FanController.WaitUntilBitmaskIsValue` | fancontroller.cpp:108-126 | The loop computes the spin-poll's outcome. It makes at most POLL_ATTEMPTS reads, every one of them of status port 0x6C, and it writes nothing. |
| `FanController.Handshake` | fancontroller.cpp:128-167 | Read 0x68, wait for bit 0x02 to clear, write the magic byte to 0x6C. The first failing step ends it with false. |
| `FanController.EcIntroSequence` | fancontroller.cpp:128-147 | Equal to the handshake with byte 0x59. |
| `FanController.EcCloseSequence` | fancontroller.cpp:149-167 | Equal to the handshake with byte 0xFF. It also counts one start of the close handshake. |
| `FanController.SetFan` | fancontroller.cpp:169-235 | It leaves the device as `SetFanOutcome` says and returns true. |
| `LpcFilter.Device.Open` | fancontroller.cpp:176-179 | It returns the driver's prepared handle. A handle other than INVALID_HANDLE_VALUE is recorded as opened; nothing else changes. |
| `LpcFilter.Device.Close` | fancontroller.cpp:223 | The release of the handle is recorded; nothing else changes. |
| `LpcFilter.Device.TransactRead` | fancontroller.cpp:61-63 | One read transaction on the port: it answers the next read reply and is recorded. |
| `LpcFilter.Device.TransactWrite` | fancontroller.cpp:83-96 | One write transaction of the value to the port: it reports the next write status and is recorded. |
| `EcModel.ReadOutcome` | fancontroller.cpp:40-75 | The reference semantics of read_uchar. `FanController.ReadUchar` is proved equal to it and its properties are stated there; `HandshakeReadFailure` covers a failed read inside a handshake. |
| `EcModel.WriteOutcome` | fancontroller.cpp:77-106 | The reference semantics of write_uchar. `FanController.WriteUchar` is proved equal to it and its properties are stated there. |
| `EcModel.PollOutcome` | fancontroller.cpp:113-125 | The spin-poll with a remaining budget of attempts. Its properties are proved in `PollFrame`, `PollStopsAt`, `PollTimeout` and `PollSucceedsIff`. |
| `EcModel.WaitOutcome` | fancontroller.cpp:108-126 | wait_until_bitmask_is_value: the poll with 20000 attempts. `WaitFirstReadMatches`, `WaitNeverMatches` and `WaitAdds` carry its properties, and the loop of `FanController.WaitUntilBitmaskIsValue` is proved equal to it. |
| `EcModel.HandshakeOutcome` | fancontroller.cpp:128-167 | The handshake both sequences share. Its properties are proved in `HandshakeEffect`, `HandshakeReadFailure`, `HandshakeSuccessShape` and `HandshakeAdds`. |
| `EcModel.IntroOutcome` | fancontroller.cpp:128-147 | ec_intro_sequence: the handshake with 0x59. `BodyPieces` and `SetFanWrites` state what it contributes to setFan. |
| `EcModel.CloseOutcome` | fancontroller.cpp:149-167 | ec_close_sequence: the handshake with 0xFF, counting its start. `SetFanRun` and `SetFanCleanup` state what it contributes to setFan. |
| `EcModel.BodyOutcome` | fancontroller.cpp:187-217 | The steps of setFan from the idle wait to the fan command, with the stage where they stopped. Its properties are proved in `BodyPieces`. |
| `EcModel.SetFanOutcome` | fancontroller.cpp:169-235 | setFan returns true on every path. It stops at the open exactly when CreateFileA returned INVALID_HANDLE_VALUE. |
| `EcProperties.PollFrame` | fancontroller.cpp:113-120 | The poll adds between 0 and `left` reads, all of port 0x6C. It changes nothing else. A successful poll has read at least once. On the null handle the poll fails at once, with no read. |
| `EcProperties.PollStopsAt` | fancontroller.cpp:113-119 | The poll stops at the first read that is not a mismatch, after exactly k + 1 reads. It succeeds exactly when that read delivered a matching byte, so a failed read ends it with false. |
| `EcProperties.PollTimeout` | fancontroller.cpp:113-125 | If every read delivers a mismatching byte, the poll makes every read its budget allows and fails. |
| `EcProperties.PollSucceedsIff` | fancontroller.cpp:113-125 | The claim is an if-and-only-if. The poll succeeds exactly when, within its budget, the first read that is not a mismatch delivers a matching byte. |
| `EcProperties.WaitFirstReadMatches` | fancontroller.cpp:113-119 | If the first status byte already matches, the wait makes exactly one read and succeeds. |
| `EcProperties.WaitNeverMatches` | fancontroller.cpp:113-125 | If the status byte never matches, the wait makes exactly 20000 status reads and fails. |
| `EcProperties.HandshakeEffect` | fancontroller.cpp:128-167 | A handshake adds one read of 0x68, then status reads, then the magic write to 0x6C. The write happens exactly when the read and the wait succeeded and the handle passes the write guard. The handshake succeeds exactly when that write is acknowledged. It makes at most 1 + 20000 reads and at most one write. |
| `EcProperties.HandshakeEventsFilters` | fancontroller.cpp:128-167 | A handshake writes only its magic byte, at most once. It makes no data-port write and has no handle event. |
| `EcProperties.HandshakeReadFailure` | fancontroller.cpp:131-133 | If the 0x68 read fails, the handshake fails with no wait and no write after it. |
| `EcProperties.HandshakeSuccessShape` | fancontroller.cpp:128-147 | A successful handshake is exactly: a 0x68 read, 1 to 20000 reads of 0x6C, and one write of its byte to 0x6C. |
| `EcProperties.WaitAdds` | fancontroller.cpp:108-126 | A wait adds reads only: no write and no handle event. |
| `EcProperties.HandshakeAdds` | fancontroller.cpp:149-167 | A handshake's events have the handshake shape. When it succeeds, its magic write is its last event. |
| `EcProperties.BodyPieces` | fancontroller.cpp:187-217 | The steps before the close handshake are the idle wait, the intro handshake, the ready wait and the fan command. Each piece is empty unless every earlier step succeeded. The fan command is written exactly when all three earlier steps succeeded. |
| `EcProperties.SetFanRun` | fancontroller.cpp:187-231 | After a successful open, the close handshake is started exactly once. The trace is the open, the body's pieces (it returns them), the close handshake's events and the release. |
| `EcProperties.SetFanOpenFailure` | fancontroller.cpp:179-185 | If the open fails, setFan makes no transaction, records no release and returns true. |
| `EcProperties.SetFanCleanup` | fancontroller.cpp:187-231 | Once the handle is open, whichever step failed: the open comes first and the release last, each exactly once; the close handshake is started exactly once; and if it succeeded, its 0xFF comes right before the release. |
| `EcProperties.SetFanDataPortWrites` | fancontroller.cpp:187-217 | setFan writes the data port 0x68 at most once. It attempts that write exactly when the idle wait, the intro handshake and the ready wait succeeded. The byte is 0x77 when `on` and 0x76 otherwise; no other byte is ever written there. |
| `EcProperties.SetFanWrites` | fancontroller.cpp:187-221 | Every write sequence setFan can produce, by the stage where it stopped. No write that depends on a failed step happens, and only the close byte can follow a failure. |
| `EcProperties.SetFanSuccessWrites` | fancontroller.cpp:187-221 | When the command write and the close handshake both succeed, the writes are exactly `[0x59 to 0x6C, 0x77 or 0x76 to 0x68, 0xFF to 0x6C]`. |
| `EcProperties.SetFanIdleDevice` | fancontroller.cpp:169-235 | Take a device that always delivers, is always idle and ready, and acknowledges every write. setFan produces exactly this trace: open, 1 status read, the intro handshake with 1 status read, 1 status read, the fan command, the close handshake with 1 status read, release. |

## Left out

- The Win32 transport is abstracted as the read/write oracle: `DeviceIoControl`, the `CTL_CODE` I/O control codes (0x22E000 / 0x22E004) and the 8-byte input buffers.
- `CreateFileA` and `CloseHandle` are reduced to a prepared handle and a recorded release. The result of `CloseHandle` only selects a debug message, so it is not modelled.
- Debug `printf` output and `GetLastError` are left out; they only print.
- `system("pause")` is left out; it is console interaction.
- The non-Windows `setFan` (it runs a Perl script) and the empty constructor are left out.
- Hardware timing is left out. The poll is bounded by its attempt count, not by time.
- The program leaves some local bytes uninitialised: `currentValue` in the poll, and `value` in the handshakes. The model starts them at 0. Their value is never used before a successful read sets it.
- FanController.WriteUchar: the guard `hDevice < 0` is modelled as a signed comparison of the handle's value. `HANDLE` is a pointer type, and a compiler that compares pointers as unsigned never takes this branch. The read guard `!hDevice` is modelled as a test for the null handle.
- Wrap-around of the poll's 16-bit `WORD` counter needs no modelling: the counter has a 16-bit type in the model, which proves it never wraps, because the bound 20000 is below 65536.

Three points where the code behaves differently from what a reader might expect; the model follows the code:

- setFan returns 1 on every path, including a failed open and a failed handshake, so it never reports which step failed;
- the fan command goes to port 0x68, the data port, while the handshake bytes go to port 0x6C;
- the two handle-validity guards differ, as described above for `WriteUchar`.
