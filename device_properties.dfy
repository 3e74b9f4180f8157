/** What the firmware (eepromrw_arduino/24AA512.cpp) promises, proved about
    the functions that the `Controller` methods are verified against. */
module DeviceProperties {
  import opened Wire
  import opened Device

  /** The 2-byte size field decodes to the size it encodes. */
  lemma SizeFieldDecodes(n: nat, rest: Bytes)
    requires n < 0x10000
    ensures Take(LE(n, 2) + rest, 2) == LE(n, 2)
    ensures (LE(n, 2) + rest)[2..] == rest
    ensures FromLE(LE(n, 2)) == n
  {
    assert Pow256(2) == 0x10000;
    FromLEOfLE(n, 2);
    assert (LE(n, 2) + rest)[..2] == LE(n, 2);
  }

  /** A read of a field that has fully arrived returns it and leaves the rest
      of the host's data. */
  lemma ReceiveExact(d: Device, field: Bytes, rest: Bytes)
    requires d.input == field + rest
    ensures d.Receive(|field|) == (field, d.(input := rest))
  {
    assert d.input[..|field|] == field && d.input[|field|..] == rest;
  }

  /** A declared size above CHUNK_SIZE is refused with "nck" before any
      payload is read; nothing else changes. */
  lemma WriteOversizeRefused(d: Device, n: nat, rest: Bytes)
    requires CHUNK_SIZE < n < 0x10000
    requires d.input == LE(n, 2) + rest
    ensures WriteChunkStep(d) == d.(input := rest, output := d.output + NCK)
  {
    SizeFieldDecodes(n, rest);
  }

  /** The same for `read_chunk`: the EEPROM is not addressed at all. */
  lemma ReadOversizeRefused(d: Device, n: nat, rest: Bytes)
    requires CHUNK_SIZE < n < 0x10000
    requires d.input == LE(n, 2) + rest
    ensures ReadChunkStep(d) == d.(input := rest, output := d.output + NCK)
  {
    SizeFieldDecodes(n, rest);
  }

  /** A payload cut short by the end of the host's data is refused with "nck"
      after the size "ack"; the EEPROM and `addressOffset` are untouched. */
  lemma WriteShortPayloadRefused(d: Device, n: nat, payload: Bytes)
    requires |payload| < n <= CHUNK_SIZE
    requires d.input == LE(n, 2) + payload
    ensures WriteChunkStep(d) == d.(input := [], output := d.output + ACK + NCK)
  {
    SizeFieldDecodes(n, payload);
  }

  /** `write_chunk` on a complete chunk: after the "ack"s for the size and the
      payload, a checksum mismatch is refused; otherwise the checksum is
      acknowledged and the chunk written to the EEPROM at `addressOffset`. Only
      when the checksum matches AND the I2C write succeeds does the chunk land
      in memory and `addressOffset` advance by its size, modulo 2^16; the
      success path emits four "ack"s and no "nck". */
  lemma WriteChunkComplete(d: Device, payload: Bytes, field: Bytes, rest: Bytes)
    requires |payload| <= CHUNK_SIZE && |field| == 4
    requires d.input == LE(|payload|, 2) + payload + field + rest
    ensures WriteChunkStep(d).input == rest
    ensures WriteChunkStep(d).output == d.output + ACK + ACK +
      (if FromLE(field) != Checksum(payload) as nat then NCK
       else if d.bus == [] || d.bus[0] then ACK + ACK else ACK + NCK)
    ensures WriteChunkStep(d).offset ==
      if FromLE(field) == Checksum(payload) as nat && (d.bus == [] || d.bus[0])
      then Advance(d.offset, |payload|) else d.offset
    ensures WriteChunkStep(d).chip ==
      if FromLE(field) == Checksum(payload) as nat && (d.bus == [] || d.bus[0])
      then d.chip.Write(AddressBytes(d.offset) + payload) else d.chip
  {
    var tail := payload + (field + rest);
    Associative(LE(|payload|, 2), payload, field);
    Associative(LE(|payload|, 2) + payload, field, rest);
    Associative(LE(|payload|, 2), payload, field + rest);
    SizeFieldDecodes(|payload|, []);
    ReceiveExact(d, LE(|payload|, 2), tail);
    var d1 := d.(input := tail);
    assert WriteChunkStep(d) == WriteSized(d1, |payload|);
    var d2 := d1.Send(ACK);
    ReceiveExact(d2, payload, field + rest);
    var d3 := d2.(input := field + rest).Send(ACK);
    assert WriteSized(d1, |payload|) == WriteReceived(d3, payload);
    ReceiveExact(d3, field, rest);
    var base := d.output + ACK + ACK;
    assert d3.output == base && d3.offset == d.offset && d3.chip == d.chip && d3.bus == d.bus;
    if FromLE(field) != Checksum(payload) as nat {
      assert WriteReceived(d3, payload) == d3.(input := rest).Send(NCK);
      assert WriteChunkStep(d).offset == d.offset;
    } else {
      var d4 := d3.(input := rest).Send(ACK);
      assert WriteReceived(d3, payload) == Commit(d4, payload);
      var r := WriteChunkStep(d);
      assert r == Commit(d4, payload);
      CommitOutcome(d4, payload);
      assert r.offset == if d.bus == [] || d.bus[0] then Advance(d.offset, |payload|) else d.offset;
      Associative(base, ACK, if d.bus == [] || d.bus[0] then ACK else NCK);
    }
  }

  /** The I2C write of a chunk whose checksum matched: when the chip
      acknowledges, the chunk is stored at `addressOffset`, which then advances
      past it, and the host gets "ack"; otherwise nothing changes but the
      "nck". */
  lemma CommitOutcome(d: Device, chunk: Bytes)
    requires |chunk| <= CHUNK_SIZE
    ensures var ok := d.bus == [] || d.bus[0];
      var r := Commit(d, chunk);
      && r.input == d.input
      && r.output == d.output + (if ok then ACK else NCK)
      && r.offset == (if ok then Advance(d.offset, |chunk|) else d.offset)
      && r.chip == (if ok then d.chip.Write(AddressBytes(d.offset) + chunk) else d.chip)
  {
  }

  /** Whatever the host sends, `write_chunk` changes the EEPROM or
      `addressOffset` only on its success path, which answers with exactly
      four "ack"s: every path that sends "nck", or stops early, leaves both as
      they were. */
  lemma WriteChunkChangesOnlyOnSuccess(d: Device)
    ensures var r := WriteChunkStep(d);
      r.offset != d.offset || r.chip != d.chip ==> r.output == d.output + ACK + ACK + ACK + ACK
  {
    var (sizeField, d1) := d.Receive(2);
    if |sizeField| == 2 && FromLE(sizeField) <= CHUNK_SIZE {
      var (chunk, d2) := d1.Send(ACK).Receive(FromLE(sizeField));
      if |chunk| == FromLE(sizeField) {
        var d3 := d2.Send(ACK);
        var (remoteField, d4) := d3.Receive(4);
        if |remoteField| == 4 && FromLE(remoteField) == Checksum(chunk) as nat {
          assert d4.output == d.output + ACK + ACK;
        }
      }
    }
  }

  /** The address goes out high byte first, so the EEPROM stores the chunk
      from `addressOffset` on and leaves its pointer just past it. */
  lemma WriteFrameStoresAt(e: Eeprom, a: Address, data: Bytes)
    requires |data| <= 0x10000
    ensures e.Write(AddressBytes(a) + data) == Eeprom(Store(e.memory, a, data), Advance(a, |data|))
  {
    var frame := AddressBytes(a) + data;
    assert frame[0] as nat * 0x100 + frame[1] as nat == a;
    assert frame[2..] == data;
  }

  /** The stored bytes read back from the same address. */
  lemma StoreThenLoad(m: Memory, base: Address, data: Bytes)
    requires |data| <= 0x10000
    ensures Load(Store(m, base, data), base, |data|) == data
  {
    var stored := Store(m, base, data);
    forall k | 0 <= k < |data|
      ensures Load(stored, base, |data|)[k] == data[k]
    {
      var a := (base + k) % 0x10000;
      OffsetWithin(base, k);
      assert (a - base) % 0x10000 == k;
    }
  }

  /** The distance from `base` to `(base + k) mod 2^16`, taken modulo 2^16,
      is `k`. */
  lemma OffsetWithin(base: Address, k: nat)
    requires k < 0x10000
    ensures ((base + k) % 0x10000 - base) % 0x10000 == k
  {
    if base + k < 0x10000 {
      assert (base + k) % 0x10000 == base + k;
    } else {
      assert (base + k) % 0x10000 == base + k - 0x10000;
      assert (base + k - 0x10000 - base) == k - 0x10000;
    }
  }

  /** A transaction that only sets the address leaves the memory unchanged. */
  lemma StoreNothing(m: Memory, base: Address)
    ensures Store(m, base, []) == m
  {
  }

  /** `read_chunk` on a size the chip accepts: after the size "ack", the host
      receives the chunk's checksum as 4 little-endian bytes and then the
      `n` bytes stored from `addressOffset` on; `addressOffset` advances by
      `n`, modulo 2^16, exactly when the host answers "ack", so after any other
      answer the next chunk reads the same addresses again. */
  lemma ReadChunkComplete(d: Device, n: nat, reply: Bytes, rest: Bytes)
    requires n <= CHUNK_SIZE && |reply| == 3
    requires d.bus == [] || d.bus[0]
    requires d.input == LE(n, 2) + reply + rest
    ensures var r := ReadChunkStep(d);
      var data := Load(d.chip.memory, d.offset, n);
      && r.input == rest
      && r.output == d.output + ACK + ChecksumField(Checksum(data)) + data
      && r.offset == (if reply == ACK then Advance(d.offset, n) else d.offset)
      && r.chip.memory == d.chip.memory
  {
    SizeFieldDecodes(n, []);
    ReceiveExact(d, LE(n, 2), reply + rest);
    var d1 := d.(input := reply + rest);
    assert ReadChunkStep(d) == ReadSized(d1, n);
    AddressOnly(d1.Send(ACK));
    var d2 := d1.Send(ACK).(bus := if d.bus == [] then [] else d.bus[1..], chip := Eeprom(d.chip.memory, d.offset));
    assert ReadSized(d1, n) == SendChunk(d2, n);
    SendChunkOutcome(d2, n, reply, rest);
    var data := Load(d.chip.memory, d.offset, n);
    Associative(d.output + ACK, ChecksumField(Checksum(data)), data);
  }

  /** When the I2C transaction that sets the chip's pointer fails,
      `read_chunk` answers "nck" after the size "ack" and stops: no data is
      sent, and neither the EEPROM nor `addressOffset` changes. */
  lemma ReadAddressRefused(d: Device, n: nat, rest: Bytes)
    requires n <= CHUNK_SIZE
    requires d.bus != [] && !d.bus[0]
    requires d.input == LE(n, 2) + rest
    ensures ReadChunkStep(d) == d.(input := rest, output := d.output + ACK + NCK, bus := d.bus[1..])
  {
    SizeFieldDecodes(n, rest);
  }

  /** Whatever the host sends, `read_chunk` moves `addressOffset` only past a
      chunk whose data the host acknowledged: the three bytes after the size
      field spell "ack", and the offset advances by the requested size. */
  lemma ReadChunkAdvancesOnlyOnAck(d: Device)
    ensures var r := ReadChunkStep(d);
      r.offset != d.offset ==>
        && |d.input| >= 5 && d.input[2..5] == ACK
        && r.offset == Advance(d.offset, FromLE(d.input[..2]))
  {
    var (sizeField, d1) := d.Receive(2);
    if |sizeField| == 2 && FromLE(sizeField) <= CHUNK_SIZE {
      var n := FromLE(sizeField);
      assert sizeField == d.input[..2] && d1.input == d.input[2..];
      var (ok, d2) := d1.Send(ACK).Transmit(AddressBytes(d1.offset));
      if ok {
        var (chunk, d3) := d2.Request(n);
        var (reply, d4) := d3.Send(ChecksumField(Checksum(chunk)) + chunk).Receive(3);
        assert d3.input == d.input[2..] && d3.offset == d.offset;
        if reply == ACK {
          assert d.input[2..][..3] == d.input[2..5];
        }
      }
    }
  }

  /** The I2C transaction that only sends the address moves the chip's
      pointer there and changes nothing in memory. */
  lemma AddressOnly(d: Device)
    requires d.bus == [] || d.bus[0]
    ensures d.Transmit(AddressBytes(d.offset)) ==
      (true, d.(bus := if d.bus == [] then [] else d.bus[1..], chip := Eeprom(d.chip.memory, d.offset)))
  {
    WriteFrameStoresAt(d.chip, d.offset, []);
    assert AddressBytes(d.offset) + [] == AddressBytes(d.offset);
    StoreNothing(d.chip.memory, d.offset);
  }

  /** The rest of `read_chunk` once the chip's pointer is set: the host gets
      the checksum field and the `n` bytes from the pointer on, and the offset
      advances only when the host's answer is "ack". */
  lemma SendChunkOutcome(d: Device, n: nat, reply: Bytes, rest: Bytes)
    requires |reply| == 3 && d.input == reply + rest
    ensures var data := Load(d.chip.memory, d.chip.pointer, n);
      var r := SendChunk(d, n);
      && r.input == rest
      && r.output == d.output + (ChecksumField(Checksum(data)) + data)
      && r.offset == (if reply == ACK then Advance(d.offset, n) else d.offset)
      && r.chip.memory == d.chip.memory
  {
    var data := Load(d.chip.memory, d.chip.pointer, n);
    var d1 := d.(chip := d.chip.Read(n).1);
    assert d.Request(n) == (data, d1);
    ReceiveExact(d1.Send(ChecksumField(Checksum(data)) + data), reply, rest);
  }

  /** Whatever the host sends, `read_chunk` never changes the EEPROM's
      memory. */
  lemma ReadChunkKeepsMemory(d: Device)
    ensures ReadChunkStep(d).chip.memory == d.chip.memory
  {
    var (sizeField, d1) := d.Receive(2);
    if |sizeField| == 2 && FromLE(sizeField) <= CHUNK_SIZE {
      WriteFrameStoresAt(d1.chip, d1.offset, []);
      assert AddressBytes(d1.offset) + [] == AddressBytes(d1.offset);
      StoreNothing(d1.chip.memory, d1.offset);
    }
  }

  /** The read command loop never changes the EEPROM's memory. */
  lemma {:induction false} ServeReadingKeepsMemory(d: Device)
    ensures Serve(d, Reading).chip.memory == d.chip.memory
    decreases |d.input|
  {
    if d.input != [] {
      var (cmd, d1) := d.Receive(3);
      if |cmd| == 3 && cmd != RST {
        if cmd == CHK {
          var d2 := d1.Send(ACK);
          ReadChunkKeepsMemory(d2);
          ServeReadingKeepsMemory(HandleChunk(d2, Reading));
        } else {
          ServeReadingKeepsMemory(d1.Send(NCK));
        }
      }
    }
  }

  /** A nacked chunk read is served again from the same addresses: the host
      receives the same checksum and bytes twice and `addressOffset` advances
      only once. */
  lemma ReadRetryRereads(d: Device, n: nat, refusal: Bytes, retry: Bytes)
    requires n <= CHUNK_SIZE
    requires |refusal| == 3 && refusal != ACK
    requires d.bus == []
    requires d.input == CHK + LE(n, 2) + refusal + retry
    requires retry == CHK + LE(n, 2) + ACK
    ensures var data := Load(d.chip.memory, d.offset, n);
      var reply := ACK + ACK + ChecksumField(Checksum(data)) + data;
      var r := Serve(d, Reading);
      && r.output == d.output + reply + reply
      && r.offset == Advance(d.offset, n)
  {
    var e := ServeReadChunk(d, n, refusal, retry);
    assert retry == CHK + LE(n, 2) + ACK + [];
    var f := ServeReadChunk(e, n, ACK, []);
    assert Serve(f, Reading) == f;
  }

  /** One "chk" read command served from the command loop: the loop goes on
      from `e`, which has answered the chunk and consumed the host's reply. */
  lemma ServeReadChunk(d: Device, n: nat, answer: Bytes, rest: Bytes) returns (e: Device)
    requires n <= CHUNK_SIZE && |answer| == 3
    requires d.bus == []
    requires d.input == CHK + LE(n, 2) + answer + rest
    ensures var data := Load(d.chip.memory, d.offset, n);
      && Serve(d, Reading) == Serve(e, Reading)
      && e.input == rest && e.bus == []
      && e.output == d.output + (ACK + ACK + ChecksumField(Checksum(data)) + data)
      && e.offset == (if answer == ACK then Advance(d.offset, n) else d.offset)
      && e.chip.memory == d.chip.memory
  {
    var data := Load(d.chip.memory, d.offset, n);
    RequestParts(CHK, LE(n, 2), answer, rest);
    ServeChunkCommand(d, LE(n, 2) + answer + rest, Reading);
    var d1 := d.(input := LE(n, 2) + answer + rest).Send(ACK);
    ReadChunkComplete(d1, n, answer, rest);
    e := ReadChunkStep(d1);
    OutputParts(d.output, ChecksumField(Checksum(data)), data);
  }

  /** "chk" is acknowledged and exactly one chunk handled, after which the
      loop goes on with the commands that follow. */
  lemma ServeChunkCommand(d: Device, body: Bytes, mode: Mode)
    requires d.input == CHK + body
    ensures Serve(d, mode) == Serve(HandleChunk(d.(input := body).Send(ACK), mode), mode)
  {
    ReceiveExact(d, CHK, body);
  }

  /** Regrouping a command and its three fields. */
  lemma RequestParts(cmd: Bytes, size: Bytes, reply: Bytes, more: Bytes)
    ensures cmd + size + reply + more == cmd + (size + reply + more)
  {
    Associative(cmd + size, reply, more);
    Associative(cmd, size, reply + more);
    Associative(size, reply, more);
  }

  /** Regrouping the device's answer to one chunk read. */
  lemma OutputParts(o: Bytes, field: Bytes, data: Bytes)
    ensures o + ACK + ACK + field + data == o + (ACK + ACK + field + data)
  {
    Associative(o, ACK, ACK);
    Associative(o, ACK + ACK, field);
    Associative(o, ACK + ACK + field, data);
  }

  /** The commands `parts`, back to back. */
  function Join(parts: seq<Bytes>): Bytes
  {
    if parts == [] then [] else parts[0] + Join(parts[1..])
  }

  /** Any run of 3-byte commands other than "rst" and "chk" is answered with
      one "nck" each and changes nothing else, in both command loops. */
  lemma {:induction false} UnknownCommandsRefused(d: Device, cmds: seq<Bytes>, rest: Bytes, mode: Mode)
    requires forall i :: 0 <= i < |cmds| ==> |cmds[i]| == 3 && cmds[i] != RST && cmds[i] != CHK
    ensures Serve(d.(input := Join(cmds) + rest), mode)
         == Serve(d.(input := rest, output := d.output + Tokens(NCK, |cmds|)), mode)
    decreases |cmds|
  {
    if cmds == [] {
      assert Join(cmds) + rest == rest && d.output + Tokens(NCK, 0) == d.output;
    } else {
      var tail := Join(cmds[1..]) + rest;
      var d0 := d.(input := Join(cmds) + rest);
      assert d0.input == cmds[0] + tail;
      ReceiveExact(d0, cmds[0], tail);
      var e := d.(output := d.output + NCK);
      assert Serve(d0, mode) == Serve(e.(input := tail), mode);
      UnknownCommandsRefused(e, cmds[1..], rest, mode);
      var more := Tokens(NCK, |cmds| - 1);
      assert Tokens(NCK, |cmds|) == NCK + more;
      Associative(d.output, NCK, more);
    }
  }

  /** "rst" ends the command loop at once; the rest of the host's data is
      left unread. */
  lemma RstExits(d: Device, rest: Bytes, mode: Mode)
    ensures Serve(d.(input := RST + rest), mode) == d.(input := rest)
  {
    ReceiveExact(d.(input := RST + rest), RST, rest);
  }
}
