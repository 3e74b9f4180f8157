/** The controller firmware's side of the protocol for the 24AA512 EEPROM
    (eepromrw_arduino/24AA512.cpp): the write and read command loops, the
    per-chunk handlers, the additive checksum and the 16-bit address counter.

    `Device` is the value the firmware's world holds: the serial bytes from the
    host not yet read, the serial bytes sent, `addressOffset`, the EEPROM seen
    over I2C, and the outcomes of the coming I2C write transactions. The class
    `Controller` holds the same state and its methods are proved against the
    functions on `Device`. */
module Device {
  import opened Wire

  /** `uint16_t`: an EEPROM address, and the range of `addressOffset`. */
  type Address = x: nat | x < 0x10000

  /** `a + n` as a 16-bit address: `addressOffset += n` on a `uint16_t`, and
      the EEPROM's own address counter, both wrap modulo 2^16. */
  function Advance(a: Address, n: nat): (r: Address)
    ensures a + n < 0x10000 ==> r == a + n
  {
    (a + n) % 0x10000
  }

  /** The 64 KiB array of the 24AA512. */
  type Memory = m: seq<byte> | |m| == 0x10000 witness seq(0x10000, _ => 0)

  /** `n` bytes of memory from `base` on; addresses wrap at the end of memory. */
  function Load(m: Memory, base: Address, n: nat): (r: Bytes)
    ensures |r| == n
  {
    seq(n, k requires 0 <= k < n => m[(base + k) % 0x10000])
  }

  /** `m` with `data` stored from `base` on, addresses wrapping at the end of
      memory. */
  function Store(m: Memory, base: Address, data: Bytes): Memory
    requires |data| <= 0x10000
  {
    seq(0x10000, a requires 0 <= a < 0x10000 =>
      var k := (a - base) % 0x10000;
      if k < |data| then data[k] else m[a])
  }

  /** The EEPROM as the firmware drives it over I2C: its memory and the
      internal address pointer that a transaction's two address bytes set. */
  datatype Eeprom = Eeprom(memory: Memory, pointer: Address)
  {
    /** A write transaction: the address, high byte first, then the data,
        which is stored from that address on. */
    function Write(frame: Bytes): Eeprom
      requires 2 <= |frame| <= 2 + 0x10000
    {
      var address := frame[0] as nat * 0x100 + frame[1] as nat;
      var data := frame[2..];
      Eeprom(Store(memory, address, data), Advance(address, |data|))
    }

    /** A sequential read of `n` bytes from the address pointer on. */
    function Read(n: nat): (Bytes, Eeprom)
    {
      (Load(memory, pointer, n), this.(pointer := Advance(pointer, n)))
    }
  }

  /** `Wire.write(addressOffset >> 8); Wire.write(addressOffset & 0xFF)` */
  function AddressBytes(a: Address): (r: Bytes)
    ensures |r| == 2 && r[0] as nat * 0x100 + r[1] as nat == a
  {
    [(a / 0x100) as byte, (a % 0x100) as byte]
  }

  /** The firmware's state. `bus` lists the outcomes of the coming I2C write
      transactions (true: the chip acknowledged); once it is used up, every
      transaction succeeds. */
  datatype Device = Device(input: Bytes, output: Bytes, offset: Address, chip: Eeprom, bus: seq<bool>)
  {
    /** `Serial.write`, and the `ack()`/`nck()` tokens. */
    function Send(b: Bytes): Device
    {
      this.(output := output + b)
    }

    /** `Serial.readBytes(buf, n)`: `n` bytes, or fewer on a timeout. */
    function Receive(n: nat): (Bytes, Device)
    {
      var b := Take(input, n);
      (b, this.(input := input[|b|..]))
    }

    /** `Wire.beginTransmission` ... `Wire.endTransmission() == 0` */
    function Transmit(frame: Bytes): (r: (bool, Device))
      requires 2 <= |frame| <= 2 + 0x10000
      ensures r.1.input == input && r.1.output == output && r.1.offset == offset
      ensures r.1.chip == if r.0 then chip.Write(frame) else chip
      ensures r.0 == (bus == [] || bus[0])
      ensures r.1.bus == if bus == [] then [] else bus[1..]
    {
      var ok := bus == [] || bus[0];
      var d := this.(bus := if bus == [] then [] else bus[1..]);
      if ok then (true, d.(chip := chip.Write(frame))) else (false, d)
    }

    /** `Wire.requestFrom` followed by `Wire.read` until it runs dry. */
    function Request(n: nat): (r: (Bytes, Device))
      ensures |r.0| == n && r.1.chip.memory == chip.memory
      ensures r.1 == this.(chip := r.1.chip)
    {
      var (b, c) := chip.Read(n);
      (b, this.(chip := c))
    }
  }

  /** `write_chunk`, entered just after the "chk" command was acknowledged:
      read the size and refuse one above CHUNK_SIZE; read the payload and
      refuse a short one; read the remote checksum and refuse a mismatch;
      write the chunk to the EEPROM at `addressOffset` and refuse a failed
      transaction; only then advance `addressOffset`, modulo 2^16. A field
      that the end of the input cuts short ends the handler without a reply. */
  function WriteChunkStep(d: Device): (r: Device)
    ensures |r.input| <= |d.input|
    ensures d.output <= r.output
  {
    var (sizeField, d1) := d.Receive(2);
    if |sizeField| < 2 then d1 else WriteSized(d1, FromLE(sizeField))
  }

  /** `write_chunk` once the size field has arrived. */
  function WriteSized(d: Device, chunkSize: nat): (r: Device)
    ensures |r.input| <= |d.input|
    ensures d.output <= r.output
  {
    if chunkSize > CHUNK_SIZE then d.Send(NCK) else
    var (chunk, d1) := d.Send(ACK).Receive(chunkSize);
    if |chunk| != chunkSize then d1.Send(NCK) else WriteReceived(d1.Send(ACK), chunk)
  }

  /** `write_chunk` once the whole payload has arrived. */
  function WriteReceived(d: Device, chunk: Bytes): (r: Device)
    requires |chunk| <= CHUNK_SIZE
    ensures |r.input| <= |d.input|
    ensures d.output <= r.output
  {
    var (remoteField, d1) := d.Receive(4);
    if |remoteField| < 4 then d1
    else if FromLE(remoteField) != Checksum(chunk) as nat then d1.Send(NCK)
    else Commit(d1.Send(ACK), chunk)
  }

  /** `write_chunk` once the checksum has matched: the I2C write, and the
      advance of `addressOffset` if it succeeded. */
  function Commit(d: Device, chunk: Bytes): (r: Device)
    requires |chunk| <= CHUNK_SIZE
    ensures r.input == d.input
    ensures d.output <= r.output
  {
    var (ok, d1) := d.Transmit(AddressBytes(d.offset) + chunk);
    if !ok then d1.Send(NCK) else d1.(offset := Advance(d1.offset, |chunk|)).Send(ACK)
  }

  /** `read_chunk`, entered just after the "chk" command was acknowledged:
      read the size and refuse one above CHUNK_SIZE; point the EEPROM at
      `addressOffset` and refuse a failed transaction; read the chunk; send its
      checksum as 4 little-endian bytes and then the chunk; advance
      `addressOffset`, modulo 2^16, only when the host answers "ack". */
  function ReadChunkStep(d: Device): (r: Device)
    ensures |r.input| <= |d.input|
    ensures d.output <= r.output
  {
    var (sizeField, d1) := d.Receive(2);
    if |sizeField| < 2 then d1 else ReadSized(d1, FromLE(sizeField))
  }

  /** `read_chunk` once the size field has arrived. */
  function ReadSized(d: Device, chunkSize: nat): (r: Device)
    ensures |r.input| <= |d.input|
    ensures d.output <= r.output
  {
    if chunkSize > CHUNK_SIZE then d.Send(NCK) else
    var (ok, d1) := d.Send(ACK).Transmit(AddressBytes(d.offset));
    if !ok then d1.Send(NCK) else SendChunk(d1, chunkSize)
  }

  /** `read_chunk` once the EEPROM has accepted the address: read `n` bytes
      from it, send their checksum and the bytes, and advance `addressOffset`
      if the host answers "ack". */
  function SendChunk(d: Device, n: nat): (r: Device)
    ensures |r.input| <= |d.input|
    ensures d.output <= r.output
  {
    var (chunk, d1) := d.Request(n);
    var (reply, d2) := d1.Send(ChecksumField(Checksum(chunk)) + chunk).Receive(3);
    if reply != ACK then d2 else d2.(offset := Advance(d2.offset, n))
  }

  datatype Mode = Writing | Reading

  function HandleChunk(d: Device, mode: Mode): (r: Device)
    ensures |r.input| <= |d.input|
  {
    if mode == Writing then WriteChunkStep(d) else ReadChunkStep(d)
  }

  /** The body of the command loop of `chip_24AA512_write` (mode `Writing`) and
      `chip_24AA512_read` (mode `Reading`), run until "rst" or until the host
      has nothing more to send (where the firmware would poll forever): "chk"
      is acknowledged and one chunk handled, any other command refused with
      "nck". */
  function Serve(d: Device, mode: Mode): Device
    decreases |d.input|
  {
    if d.input == [] then d
    else
      var (cmd, d1) := d.Receive(3);
      if |cmd| < 3 || cmd == RST then d1
      else if cmd == CHK then Serve(HandleChunk(d1.Send(ACK), mode), mode)
      else Serve(d1.Send(NCK), mode)
  }

  /** `chip_24AA512_write`/`chip_24AA512_read`: reset `addressOffset`, then
      serve commands. */
  function CommandLoop(d: Device, mode: Mode): Device
  {
    Serve(d.(offset := 0), mode)
  }

  /** `simpleChecksum`: the sum of the first `length` bytes, accumulated in an
      `unsigned int` (16 bits on AVR, so the sum wraps modulo 2^16), of which
      the low byte is returned. The wrap-around never changes the result. */
  method SimpleChecksum(data: array<byte>, length: nat) returns (c: byte)
    requires length <= data.Length
    ensures c == Checksum(data[..length])
  {
    var sum: nat := 0;
    for i := 0 to length
      invariant sum == Sum(data[..i]) % 0x10000
    {
      assert data[..i + 1][..i] == data[..i];
      AddWrapped(Sum(data[..i]), data[i] as nat);
      sum := (sum + data[i] as nat) % 0x10000;
    }
    LowByteOfWrapped(Sum(data[..length]));
    c := (sum % 0x100) as byte;
  }

  /** Adding to a 16-bit register and wrapping agrees with wrapping the
      exact total. */
  lemma AddWrapped(total: nat, x: nat)
    ensures (total % 0x10000 + x) % 0x10000 == (total + x) % 0x10000
  {
    var q := total / 0x10000;
    assert total + x == q * 0x10000 + (total % 0x10000 + x);
  }

  /** The low byte survives the 16-bit wrap-around. */
  lemma LowByteOfWrapped(total: nat)
    ensures total % 0x10000 % 0x100 == total % 0x100
  {
    var q := total / 0x10000;
    assert total == q * 0x100 * 0x100 + total % 0x10000;
  }

  /** The firmware: the static `addressOffset`, the serial line, and the I2C
      bus with the EEPROM behind it. */
  class Controller {
    var addressOffset: Address
    var input: Bytes
    var output: Bytes
    var chip: Eeprom
    var bus: seq<bool>

    ghost function State(): Device
      reads this
    {
      Device(input, output, addressOffset, chip, bus)
    }

    constructor (fromHost: Bytes, memory: Memory, busOutcomes: seq<bool>)
      ensures State() == Device(fromHost, [], 0, Eeprom(memory, 0), busOutcomes)
    {
      addressOffset := 0;
      input := fromHost;
      output := [];
      chip := Eeprom(memory, 0);
      bus := busOutcomes;
    }

    /** `Serial.readBytes(buf, n)` */
    method ReadBytes(n: nat) returns (b: Bytes)
      modifies this
      ensures (b, State()) == old(State()).Receive(n)
    {
      b := Take(input, n);
      input := input[|b|..];
    }

    /** `Serial.write(buf, n)` */
    method SerialWrite(b: Bytes)
      modifies this
      ensures State() == old(State()).Send(b)
    {
      output := output + b;
    }

    /** `ack()`: the token "ack" on the serial line. */
    method Ack()
      modifies this
      ensures State() == old(State()).Send(ACK)
    {
      SerialWrite(ACK);
    }

    /** `nck()`: the token "nck" on the serial line. */
    method Nck()
      modifies this
      ensures State() == old(State()).Send(NCK)
    {
      SerialWrite(NCK);
    }

    /** `Wire.beginTransmission(0x50)`, the `Wire.write`s of `frame`, and
        `Wire.endTransmission()`, which returns 0 on success. */
    method EndTransmission(frame: Bytes) returns (result: int)
      requires 2 <= |frame| <= 2 + 0x10000
      modifies this
      ensures (result == 0, State()) == old(State()).Transmit(frame)
    {
      var ok := bus == [] || bus[0];
      bus := if bus == [] then [] else bus[1..];
      if ok {
        chip := chip.Write(frame);
        result := 0;
      } else {
        result := 2;  // the chip did not acknowledge
      }
    }

    /** `Wire.requestFrom(0x50, n)`: the bytes the chip delivers. */
    method RequestFrom(n: nat) returns (b: Bytes)
      modifies this
      ensures (b, State()) == old(State()).Request(n)
    {
      var (got, c) := chip.Read(n);
      b, chip := got, c;
    }

    /** `write_chunk` */
    method WriteChunk()
      modifies this
      ensures State() == WriteChunkStep(old(State()))
    {
      var sizeField := ReadBytes(2);
      if |sizeField| < 2 {
        return;
      }
      var chunkSize := FromLE(sizeField);
      if chunkSize > CHUNK_SIZE {
        Nck();
        return;
      }
      Ack();
      var chunk := new byte[CHUNK_SIZE];
      var got := ReadBytes(chunkSize);
      forall k | 0 <= k < |got| {
        chunk[k] := got[k];
      }
      if |got| != chunkSize {
        Nck();
        return;
      }
      assert chunk[..chunkSize] == got;
      var checksum := SimpleChecksum(chunk, chunkSize);
      Ack();
      CheckAndCommit(chunk, chunkSize, checksum);
    }

    /** The rest of `write_chunk` once the payload is in `chunk[..chunkSize]`
        and its checksum computed: compare the remote checksum, write the chunk
        to the EEPROM at `addressOffset`, and advance `addressOffset` if the
        write succeeded. */
    method CheckAndCommit(chunk: array<byte>, chunkSize: nat, checksum: byte)
      requires chunkSize <= CHUNK_SIZE <= chunk.Length
      requires checksum == Checksum(chunk[..chunkSize])
      modifies this
      ensures State() == WriteReceived(old(State()), chunk[..chunkSize])
    {
      var remoteField := ReadBytes(4);
      if |remoteField| < 4 {
        return;
      }
      var remoteChecksum := FromLE(remoteField);
      if remoteChecksum != checksum as nat {
        Nck();
        return;
      }
      Ack();
      var result := EndTransmission(AddressBytes(addressOffset) + chunk[..chunkSize]);
      if result != 0 {
        Nck();
        return;
      }
      addressOffset := Advance(addressOffset, chunkSize);  // uint16_t +=
      Ack();
    }

    /** `read_chunk` */
    method ReadChunk()
      modifies this
      ensures State() == ReadChunkStep(old(State()))
    {
      var sizeField := ReadBytes(2);
      if |sizeField| < 2 {
        return;
      }
      var chunkSize := FromLE(sizeField);
      if chunkSize > CHUNK_SIZE {
        Nck();
        return;
      }
      Ack();
      var result := EndTransmission(AddressBytes(addressOffset));
      if result != 0 {
        Nck();
        return;
      }
      SendChunkBytes(chunkSize);
    }

    /** The rest of `read_chunk` once the EEPROM has accepted the address:
        fetch the chunk, send its checksum and the chunk, and advance
        `addressOffset` when the host acknowledges. */
    method SendChunkBytes(chunkSize: nat)
      requires chunkSize <= CHUNK_SIZE
      modifies this
      ensures State() == SendChunk(old(State()), chunkSize)
    {
      var received := RequestFrom(chunkSize);
      ghost var fetched := State();
      var chunk := CopyAvailable(received, chunkSize);
      var checksum := SimpleChecksum(chunk, chunkSize);
      assert checksum == Checksum(received);
      SerialWrite(ChecksumField(checksum));
      SerialWrite(chunk[..chunkSize]);
      assert output == fetched.output + (ChecksumField(checksum) + received);
      var reply := ReadBytes(3);
      if reply != ACK {
        return;
      }
      addressOffset := Advance(addressOffset, chunkSize);  // uint16_t +=
    }

    /** The `Wire.read` loop of `read_chunk`: copy the bytes the chip
        delivered, at most `chunkSize` of them, into a fresh `chunk` buffer. */
    method CopyAvailable(received: Bytes, chunkSize: nat) returns (chunk: array<byte>)
      requires chunkSize <= CHUNK_SIZE && |received| == chunkSize
      ensures fresh(chunk) && chunk.Length == CHUNK_SIZE
      ensures chunk[..chunkSize] == received
    {
      chunk := new byte[CHUNK_SIZE];
      var i := 0;
      while i < |received| && i < chunkSize  // Wire.available() > 0 && i < chunkSize
        invariant 0 <= i <= chunkSize && i <= |received|
        invariant chunk[..i] == received[..i]
        modifies chunk
      {
        chunk[i] := received[i];
        i := i + 1;
      }
    }

    /** `chip_24AA512_write`: reset `addressOffset`, then serve write commands. */
    method ChipWrite()
      modifies this
      ensures State() == CommandLoop(old(State()), Writing)
    {
      addressOffset := 0;
      ServeCommands(Writing);
    }

    /** `chip_24AA512_read`: reset `addressOffset`, then serve read commands. */
    method ChipRead()
      modifies this
      ensures State() == CommandLoop(old(State()), Reading)
    {
      addressOffset := 0;
      ServeCommands(Reading);
    }

    /** The `while (true)` loop of `chip_24AA512_write` (mode `Writing`) and
        `chip_24AA512_read` (mode `Reading`), which differ only in the chunk
        handler they call. */
    method ServeCommands(mode: Mode)
      modifies this
      ensures State() == Serve(old(State()), mode)
    {
      while input != []
        invariant Serve(State(), mode) == Serve(old(State()), mode)
        decreases |input|
      {
        var cmd := ReadBytes(3);
        if |cmd| < 3 || cmd == RST {
          return;
        } else if cmd == CHK {
          Ack();
          if mode == Writing {
            WriteChunk();
          } else {
            ReadChunk();
          }
        } else {
          Nck();
        }
      }
    }
  }
}
