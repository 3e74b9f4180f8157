/** The host side of the transfer protocol (eepromrw.py): the handshake, the
    per-chunk write and read sub-protocols with their retry rules, and the
    loop that splits a transfer into full chunks plus one remainder chunk.

    The serial port and the open file are objects the procedures update in
    place (`SerialPort`, `FileBuffer`); each procedure is proved against a
    function on `HostIO`, the value those objects hold, and the properties of
    the protocol are lemmas about these functions (module HostProperties). */
module Host {
  import opened Wire

  /** What `wait_for_ack` makes of the controller's next three bytes. `NoReply`
      stands for fewer than three bytes ever arriving: the source then polls
      forever and never returns. */
  datatype Reply = Acked | Refused | NoReply

  /** The protocol step at which the controller refused, or at which data
      went missing. */
  datatype Step = Handshake | Announce | SizeField | Payload | MissingData

  /** How a chunk exchange or a whole transfer ends. `Hung`: waiting forever
      for a status token. `Crashed`: the 4-byte checksum read came up short,
      so decoding it raises and the program stops. */
  datatype Status = Done | Failed(step: Step) | Hung | Crashed

  datatype Direction = ToChip | FromChip

  /** Everything the host's procedures can observe or change: the bytes the
      controller has sent and the host has not yet read (`inbox`, in arrival
      order), every byte the host has written to the port (`sent`), the unread
      rest of the source file (`source`) and what has been written to the
      destination file (`dest`). */
  datatype HostIO = HostIO(inbox: Bytes, sent: Bytes, source: Bytes, dest: Bytes)
  {
    function Send(b: Bytes): HostIO
    {
      this.(sent := sent + b)
    }

    function Await(): (Reply, HostIO)
    {
      var (a, rest) := AwaitAck(inbox);
      (a, this.(inbox := rest))
    }
  }

  /** `wait_for_ack` on a stream `inbox`: it consumes exactly three bytes, and
      answers `Acked` exactly when they spell "ack". */
  function AwaitAck(inbox: Bytes): (r: (Reply, Bytes))
    ensures r.0 == NoReply <==> |inbox| < 3
    ensures r.0 == NoReply ==> r.1 == inbox
    ensures r.0 != NoReply ==> |inbox| >= 3 && inbox == inbox[..3] + r.1
    ensures r.0 != NoReply ==> (r.0 == Acked <==> inbox[..3] == ACK)
  {
    if |inbox| < 3 then (NoReply, inbox)
    else (if inbox[..3] == ACK then Acked else Refused, inbox[3..])
  }

  /** The end of a transfer when a wait for "ack" did not get one. */
  function Halt(a: Reply, step: Step): Status
  {
    if a == NoReply then Hung else Failed(step)
  }

  /** `do_write_chunk`: read up to `n` bytes from the source file, then announce
      the chunk, send its size, its bytes and its checksum, waiting for "ack"
      after each. A refusal of the checksum starts the whole exchange again,
      with the NEXT bytes of the file (the file is not rewound). */
  function WriteChunk(io: HostIO, n: nat): (r: (Status, HostIO))
    requires n < 0x10000
    ensures io.sent <= r.1.sent
    ensures |r.1.inbox| <= |io.inbox|
    ensures r.1.dest == io.dest
    decreases |io.inbox|
  {
    var b := Take(io.source, n);
    var (a1, io1) := io.(source := io.source[|b|..]).Send(CHK).Await();
    if a1 != Acked then (Halt(a1, Announce), io1) else
    var (a2, io2) := io1.Send(LE(|b|, 2)).Await();
    if a2 != Acked then (Halt(a2, SizeField), io2) else
    var (a3, io3) := io2.Send(b).Await();
    if a3 != Acked then (Halt(a3, Payload), io3) else
    var (a4, io4) := io3.Send(ChecksumField(Checksum(b))).Await();
    if a4 == Refused then WriteChunk(io4, n)
    else (if a4 == Acked then Done else Hung, io4)
  }

  /** Everything `do_write_chunk` sends for chunk `b` when each step is
      acknowledged: "chk", the 2-byte size, the bytes, the 4-byte checksum. */
  function WriteRequest(b: Bytes): Bytes
  {
    CHK + LE(|b|, 2) + b + ChecksumField(Checksum(b))
  }

  /** Everything `do_read_chunk` sends for an `n`-byte chunk that arrives
      intact: "chk", the 2-byte size, and the "ack" for the data. */
  function ReadRequest(n: nat): Bytes
  {
    CHK + LE(n, 2) + ACK
  }

  /** `do_read_chunk`: announce the chunk and send the requested size, waiting
      for "ack" after each; then read the 4-byte checksum and up to `n` payload
      bytes. A checksum mismatch is answered with "nck" and the exchange starts
      again; a matching but short payload is answered with "nck" and fails;
      otherwise the host answers "ack" and appends the payload to the file. */
  function ReadChunk(io: HostIO, n: nat): (r: (Status, HostIO))
    requires n < 0x10000
    ensures io.sent <= r.1.sent
    ensures |r.1.inbox| <= |io.inbox|
    ensures r.1.source == io.source
    ensures io.dest <= r.1.dest
    decreases |io.inbox|, 1
  {
    var (a1, io1) := io.Send(CHK).Await();
    if a1 != Acked then (Halt(a1, Announce), io1) else
    var (a2, io2) := io1.Send(LE(n, 2)).Await();
    if a2 != Acked then (Halt(a2, SizeField), io2) else
    ReceiveChunk(io2, n)
  }

  /** `do_read_chunk` once the size was acknowledged: the checksum field, the
      payload, and the host's verdict on them. */
  function ReceiveChunk(io: HostIO, n: nat): (r: (Status, HostIO))
    requires n < 0x10000
    ensures io.sent <= r.1.sent
    ensures |r.1.inbox| <= |io.inbox|
    ensures r.1.source == io.source
    ensures io.dest <= r.1.dest
    decreases |io.inbox|, 0
  {
    if |io.inbox| < 4 then (Crashed, io.(inbox := [])) else
    var remote := FromLE(io.inbox[..4]);
    var b := Take(io.inbox[4..], n);
    var io1 := io.(inbox := io.inbox[4 + |b|..]);
    if Checksum(b) as nat != remote then ReadChunk(io1.Send(NCK), n)
    else if |b| < n then (Failed(MissingData), io1.Send(NCK))
    else (Done, io1.Send(ACK).(dest := io1.dest + b))
  }

  function Exchange(io: HostIO, n: nat, dir: Direction): (Status, HostIO)
    requires n < 0x10000
  {
    if dir == ToChip then WriteChunk(io, n) else ReadChunk(io, n)
  }

  /** The first `k` full-size chunk exchanges of a transfer, stopping at the
      first one that does not end in `Done`. */
  function Exchanges(io: HostIO, k: nat, dir: Direction): (Status, HostIO)
  {
    if k == 0 then (Done, io)
    else
      var (s, io1) := Exchanges(io, k - 1, dir);
      if s != Done then (s, io1) else Exchange(io1, CHUNK_SIZE, dir)
  }

  /** How many full chunks a transfer of `size` bytes has, and how many bytes
      are left for the final chunk: `math.floor(size / CHUNK_SIZE)` and
      `size - chunks * CHUNK_SIZE`. A negative size (the read size is any
      integer but 0) gives a negative count and a remainder in 0..15. */
  function Split(size: int): (r: (int, nat))
    ensures r.0 * CHUNK_SIZE + r.1 == size
    ensures r.1 < CHUNK_SIZE
  {
    (size / CHUNK_SIZE, size % CHUNK_SIZE)
  }

  /** How many times `for i in range(n)` runs. */
  function Iterations(n: int): nat
  {
    if n < 0 then 0 else n
  }

  function ModeCommand(dir: Direction): Bytes
  {
    if dir == ToChip then WRT else RD
  }

  /** The frame that names the chip: its UTF-8 bytes and a ";" terminator. */
  function ChipFrame(chip: Bytes): Bytes
  {
    chip + [SEMICOLON]
  }

  /** A whole transfer of `size` bytes (`do_write`/`do_read` once the port and
      the file are open): the handshake, then the full chunks, then one chunk
      of the remaining bytes, which is exchanged even when it is empty. */
  function Session(io: HostIO, dir: Direction, chip: Bytes, size: int): (Status, HostIO)
  {
    var (a, io1) := io.Send(RST + ModeCommand(dir) + ChipFrame(chip)).Await();
    if a != Acked then (Halt(a, Handshake), io1)
    else
      var (chunks, remaining) := Split(size);
      Transfer(io1, Iterations(chunks), remaining, dir)
  }

  /** The chunk exchanges of a transfer: `chunks` full chunks, then one chunk
      of `remaining` bytes, unless an earlier exchange failed. */
  function Transfer(io: HostIO, chunks: nat, remaining: nat, dir: Direction): (Status, HostIO)
    requires remaining < 0x10000
  {
    var (s, io1) := Exchanges(io, chunks, dir);
    if s != Done then (s, io1) else Exchange(io1, remaining, dir)
  }

  /** Once an exchange has failed, later exchanges are never attempted: the
      transfer's outcome and state are those of the first failure. */
  lemma {:induction false} ExchangesStopAtFirstFailure(io: HostIO, j: nat, k: nat, dir: Direction)
    requires j <= k
    requires Exchanges(io, j, dir).0 != Done
    ensures Exchanges(io, k, dir) == Exchanges(io, j, dir)
    decreases k
  {
    if j < k {
      ExchangesStopAtFirstFailure(io, j, k - 1, dir);
    }
  }

  /** The serial port `ser`: the controller's bytes not yet read, and all
      bytes written so far. */
  class SerialPort {
    var inbox: Bytes
    var sent: Bytes

    constructor (replies: Bytes)
      ensures inbox == replies && sent == []
    {
      inbox := replies;
      sent := [];
    }

    /** `ser.write(b)` */
    method Write(b: Bytes)
      modifies this
      ensures sent == old(sent) + b && inbox == old(inbox)
    {
      sent := sent + b;
    }

    /** `ser.read(n)`: `n` bytes, or fewer when the read times out. */
    method Read(n: nat) returns (b: Bytes)
      modifies this
      ensures b == Take(old(inbox), n)
      ensures inbox == old(inbox)[|b|..] && sent == old(sent)
    {
      b := Take(inbox, n);
      inbox := inbox[|b|..];
    }
  }

  /** The open file: the unread rest of its contents (for a write to the chip)
      and what has been written to it (for a read from the chip). */
  class FileBuffer {
    var unread: Bytes
    var written: Bytes

    constructor (contents: Bytes)
      ensures unread == contents && written == []
    {
      unread := contents;
      written := [];
    }

    /** `file.buffer.read(n)`: advances the cursor past the bytes it returns. */
    method Read(n: nat) returns (b: Bytes)
      modifies this
      ensures b == Take(old(unread), n)
      ensures unread == old(unread)[|b|..] && written == old(written)
    {
      b := Take(unread, n);
      unread := unread[|b|..];
    }

    /** `file.buffer.write(b)` */
    method Write(b: Bytes)
      modifies this
      ensures written == old(written) + b && unread == old(unread)
    {
      written := written + b;
    }
  }

  ghost function IO(ser: SerialPort, file: FileBuffer): HostIO
    reads ser, file
  {
    HostIO(ser.inbox, ser.sent, file.unread, file.written)
  }

  /** `find_lowest_bar_divider`: the smallest divider in 1..64 that brings the
      progress bar down to at most 30 segments, or 64 when none does. */
  method FindLowestBarDivider(chunks: int) returns (d: nat)
    ensures 1 <= d <= 64
    ensures chunks / d <= 30 || d == 64
    ensures forall i :: 1 <= i < d ==> chunks / i > 30
  {
    for i := 0 to 64
      invariant forall j :: 1 <= j <= i ==> chunks / j > 30
    {
      if chunks / (i + 1) <= 30 {
        return i + 1;
      }
    }
    return 64;
  }

  /** `wait_for_ack` */
  method WaitForAck(ser: SerialPort) returns (r: Reply)
    modifies ser
    ensures (r, ser.inbox) == AwaitAck(old(ser.inbox))
    ensures ser.sent == old(ser.sent)
  {
    if |ser.inbox| < 3 {
      // `in_waiting` never reaches 3: the source keeps polling forever.
      return NoReply;
    }
    var b := ser.Read(3);
    r := if b == ACK then Acked else Refused;
  }

  /** `do_write_chunk` */
  method DoWriteChunk(ser: SerialPort, file: FileBuffer, chunk: nat) returns (s: Status)
    requires chunk < 0x10000
    modifies ser, file
    ensures (s, IO(ser, file)) == WriteChunk(old(IO(ser, file)), chunk)
    decreases |ser.inbox|
  {
    ghost var io := IO(ser, file);
    var b := file.Read(chunk);
    ser.Write(CHK);
    var a := WaitForAck(ser);
    if a != Acked {
      return Halt(a, Announce);
    }
    var size := |b|;
    var checksum := Checksum(b);
    ser.Write(LE(size, 2));
    a := WaitForAck(ser);
    if a != Acked {
      return Halt(a, SizeField);
    }
    ser.Write(b);
    a := WaitForAck(ser);
    if a != Acked {
      return Halt(a, Payload);
    }
    ser.Write(ChecksumField(checksum));
    a := WaitForAck(ser);
    if a == Refused {
      s := DoWriteChunk(ser, file, chunk);
      return;
    }
    s := if a == Acked then Done else Hung;
  }

  /** `do_read_chunk` */
  method DoReadChunk(ser: SerialPort, file: FileBuffer, chunk: nat) returns (s: Status)
    requires chunk < 0x10000
    modifies ser, file
    ensures (s, IO(ser, file)) == ReadChunk(old(IO(ser, file)), chunk)
    decreases |ser.inbox|
  {
    ser.Write(CHK);
    var a := WaitForAck(ser);
    if a != Acked {
      return Halt(a, Announce);
    }
    ser.Write(LE(chunk, 2));
    a := WaitForAck(ser);
    if a != Acked {
      return Halt(a, SizeField);
    }
    ghost var acked := IO(ser, file);
    assert ReadChunk(old(IO(ser, file)), chunk) == ReceiveChunk(acked, chunk);
    var field := ser.Read(4);
    if |field| < 4 {
      // struct.unpack raises on a short field
      return Crashed;
    }
    var remoteChecksum := FromLE(field);
    var b := ser.Read(chunk);
    var checksum := Checksum(b);
    if checksum as nat != remoteChecksum {
      ser.Write(NCK);
      s := DoReadChunk(ser, file, chunk);
      return;
    }
    if |b| < chunk {
      ser.Write(NCK);
      return Failed(MissingData);
    }
    ser.Write(ACK);
    file.Write(b);
    s := Done;
  }

  /** `do_write`, from the handshake on: the transfer size is the size of the
      file, whose cursor is still at its start. */
  method DoWrite(ser: SerialPort, file: FileBuffer, chip: Bytes) returns (s: Status)
    modifies ser, file
    ensures (s, IO(ser, file)) == Session(old(IO(ser, file)), ToChip, chip, old(|file.unread|))
  {
    ghost var sent0 := ser.sent;
    ser.Write(RST);
    ser.Write(WRT);
    ser.Write(ChipFrame(chip));
    assert ser.sent == sent0 + (RST + WRT + ChipFrame(chip));
    var a := WaitForAck(ser);
    if a != Acked {
      return Halt(a, Handshake);
    }
    var fileSize := |file.unread|;
    var chunks := fileSize / CHUNK_SIZE;
    var remaining := fileSize % CHUNK_SIZE;  // fileSize - chunks * CHUNK_SIZE
    ghost var start := IO(ser, file);
    assert Session(old(IO(ser, file)), ToChip, chip, fileSize) == Transfer(start, chunks, remaining, ToChip);
    for i := 0 to chunks
      invariant Exchanges(start, i, ToChip) == (Done, IO(ser, file))
    {
      s := DoWriteChunk(ser, file, CHUNK_SIZE);
      assert Exchanges(start, i + 1, ToChip) == (s, IO(ser, file));
      if s != Done {
        ExchangesStopAtFirstFailure(start, i + 1, chunks, ToChip);
        return;
      }
    }
    s := DoWriteChunk(ser, file, remaining);
  }

  /** `do_read`, from the handshake on, for a transfer of `amount` bytes. */
  method DoRead(ser: SerialPort, file: FileBuffer, chip: Bytes, amount: int) returns (s: Status)
    modifies ser, file
    ensures (s, IO(ser, file)) == Session(old(IO(ser, file)), FromChip, chip, amount)
  {
    ghost var sent0 := ser.sent;
    ser.Write(RST);
    ser.Write(RD);
    ser.Write(ChipFrame(chip));
    assert ser.sent == sent0 + (RST + RD + ChipFrame(chip));
    var a := WaitForAck(ser);
    if a != Acked {
      return Halt(a, Handshake);
    }
    var chunks := amount / CHUNK_SIZE;
    var remaining := amount % CHUNK_SIZE;  // amount - chunks * CHUNK_SIZE
    ghost var start := IO(ser, file);
    assert Session(old(IO(ser, file)), FromChip, chip, amount) == Transfer(start, Iterations(chunks), remaining, FromChip);
    for i := 0 to Iterations(chunks)  // range(chunks)
      invariant Exchanges(start, i, FromChip) == (Done, IO(ser, file))
    {
      s := DoReadChunk(ser, file, CHUNK_SIZE);
      assert Exchanges(start, i + 1, FromChip) == (s, IO(ser, file));
      if s != Done {
        ExchangesStopAtFirstFailure(start, i + 1, Iterations(chunks), FromChip);
        return;
      }
    }
    s := DoReadChunk(ser, file, remaining);
  }
}
