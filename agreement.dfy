/** The host (eepromrw.py) and the firmware (eepromrw_arduino/24AA512.cpp)
    run against each other on one chunk exchange: the bytes the host sends
    are the firmware's input, and the firmware's output is the host's inbox.
    Both sides are deterministic and the serial line keeps byte order, so an
    exchange is consistent exactly when each side's stream is what the other
    side makes of it. */
module Agreement {
  import opened Wire
  import opened Host
  import opened Device
  import opened HostProperties
  import opened DeviceProperties

  /** One write chunk, host against firmware. The firmware accepts the
      checksum the host computed, stores the chunk at `addressOffset` if the
      I2C write succeeds, and answers with five tokens: the "chk" ack, three
      acks for the size, payload and checksum, and the verdict of the EEPROM
      write. The host waits for only four of them, so it reports success
      WHATEVER that verdict was, and the verdict stays unread on the line. */
  lemma WriteChunkAgreement(b: Bytes, more: Bytes, dest: Bytes, offset: Address, chip: Eeprom, bus: seq<bool>)
    requires |b| <= CHUNK_SIZE
    ensures var ok := bus == [] || bus[0];
      var verdict := if ok then ACK else NCK;
      var dev := Serve(Device(WriteRequest(b), [], offset, chip, bus), Writing);
      && dev.output == ACK + ACK + ACK + ACK + verdict
      && dev.chip == (if ok then chip.Write(AddressBytes(offset) + b) else chip)
      && dev.offset == (if ok then Advance(offset, |b|) else offset)
      && WriteChunk(HostIO(dev.output, [], b + more, dest), |b|)
         == (Done, HostIO(verdict, WriteRequest(b), more, dest))
  {
    var field := ChecksumField(Checksum(b));
    ChecksumFieldLayout(Checksum(b));
    var body := LE(|b|, 2) + b + field;
    RequestParts(CHK, LE(|b|, 2), b, field);
    assert body == body + [];
    var d0 := Device(WriteRequest(b), [], offset, chip, bus);
    ServeChunkCommand(d0, body, Writing);
    var d1 := d0.(input := body).Send(ACK);
    WriteChunkComplete(d1, b, field, []);
    var dev := WriteChunkStep(d1);
    assert Serve(dev, Writing) == dev;
    var verdict := if bus == [] || bus[0] then ACK else NCK;
    assert d1.output == ACK;
    Associative(ACK + ACK + ACK, ACK, verdict);
    assert dev.output == ACK + ACK + ACK + ACK + verdict;
    assert Take(b + more, |b|) == b && (b + more)[|b|..] == more;
    WriteChunkAllAcked(HostIO(dev.output, [], b + more, dest), |b|, verdict);
    assert [] + CHK == CHK;
  }

  /** One read chunk, host against firmware, with the chip answering: the
      firmware sends the checksum it computed over the bytes at
      `addressOffset` and the bytes themselves; the host finds the checksum
      matching, answers "ack" and appends exactly those bytes to its file; the
      firmware then advances `addressOffset`. Both sides agree on every byte
      of both streams. */
  lemma ReadChunkAgreement(n: nat, offset: Address, chip: Eeprom, source: Bytes, dest: Bytes)
    requires n <= CHUNK_SIZE
    ensures var request := CHK + LE(n, 2) + ACK;
      var data := Load(chip.memory, offset, n);
      var dev := Serve(Device(request, [], offset, chip, []), Reading);
      && dev.output == ACK + ACK + ChecksumField(Checksum(data)) + data
      && dev.offset == Advance(offset, n)
      && dev.chip.memory == chip.memory
      && ReadChunk(HostIO(dev.output, [], source, dest), n)
         == (Done, HostIO([], request, source, dest + data))
  {
    var request := CHK + LE(n, 2) + ACK;
    var data := Load(chip.memory, offset, n);
    var field := ChecksumField(Checksum(data));
    ChecksumFieldLayout(Checksum(data));
    RequestParts(CHK, LE(n, 2), ACK, []);
    assert request == request + [];
    var d0 := Device(request, [], offset, chip, []);
    ServeChunkCommand(d0, LE(n, 2) + ACK + [], Reading);
    var d1 := d0.(input := LE(n, 2) + ACK + []).Send(ACK);
    ReadChunkComplete(d1, n, ACK, []);
    var dev := ReadChunkStep(d1);
    assert Serve(dev, Reading) == dev;
    OutputParts([], field, data);
    assert [] + (ACK + ACK + field + data) == ACK + ACK + field + data;
    var io := HostIO(dev.output, [], source, dest);
    ReadChunkOutcomes(io, n, field, data);
    assert Take(data, n) == data && data[n..] == [];
    assert [] + CHK == CHK;
  }

  /** The first chunk of a write transfer, when no stale token is pending
      yet. When its EEPROM write fails, the host still reports it as written,
      and learns of the failure only when the NEXT chunk's "chk" is answered
      by the stale "nck": that chunk then fails at its announcement, although
      the firmware acknowledged it. Each accepted write chunk leaves one more
      unread token behind, so a failure on a later chunk is read at one of
      the four steps of a later chunk, depending on how many tokens are
      pending: at the announcement, the size or the payload the transfer
      fails, at the checksum it retries with the next bytes. Those cases are
      not stated here. */
  lemma WriteFailureSeenOneChunkLate(b1: Bytes, b2: Bytes, more: Bytes, dest: Bytes, offset: Address, chip: Eeprom)
    requires |b1| <= CHUNK_SIZE && |b2| <= CHUNK_SIZE
    ensures var sent := WriteRequest(b1) + CHK;
      var dev := Serve(Device(sent, [], offset, chip, [false]), Writing);
      var first := WriteChunk(HostIO(dev.output, [], b1 + b2 + more, dest), |b1|);
      && dev.output == ACK + ACK + ACK + ACK + NCK + ACK
      && dev.chip == chip && dev.offset == offset
      && first.0 == Done
      && WriteChunk(first.1, |b2|) == (Failed(Announce), HostIO(ACK, sent, more, dest))
  {
    FailedWriteThenAnnounce(b1, offset, chip);
    StaleVerdictFailsNextChunk(b1, b2, more, dest);
  }

  /** Firmware half: a failed EEPROM write answered "nck", then the next
      "chk" answered "ack", and nothing stored. */
  lemma FailedWriteThenAnnounce(b1: Bytes, offset: Address, chip: Eeprom)
    requires |b1| <= CHUNK_SIZE
    ensures var dev := Serve(Device(WriteRequest(b1) + CHK, [], offset, chip, [false]), Writing);
      && dev.output == ACK + ACK + ACK + ACK + NCK + ACK
      && dev.chip == chip && dev.offset == offset
  {
    var field := ChecksumField(Checksum(b1));
    ChecksumFieldLayout(Checksum(b1));
    var body := LE(|b1|, 2) + b1 + field;
    RequestParts(CHK, LE(|b1|, 2), b1, field);
    Associative(CHK, body, CHK);
    var d0 := Device(WriteRequest(b1) + CHK, [], offset, chip, [false]);
    ServeChunkCommand(d0, body + CHK, Writing);
    var d1 := d0.(input := body + CHK).Send(ACK);
    WriteChunkComplete(d1, b1, field, CHK);
    var e := WriteChunkStep(d1);
    assert e.input == CHK + [];
    ServeChunkCommand(e, [], Writing);
    var e1 := e.(input := []).Send(ACK);
    assert WriteChunkStep(e1) == e1;
    assert Serve(e1, Writing) == e1;
    assert d1.output == ACK;
    Associative(ACK + ACK + ACK, ACK, NCK);
  }

  /** Host half: the first chunk is reported written with "nck" and "ack"
      left unread; the second chunk reads the stale "nck" as the answer to
      its announcement. */
  lemma StaleVerdictFailsNextChunk(b1: Bytes, b2: Bytes, more: Bytes, dest: Bytes)
    requires |b1| <= CHUNK_SIZE && |b2| <= CHUNK_SIZE
    ensures var first := WriteChunk(HostIO(ACK + ACK + ACK + ACK + NCK + ACK, [], b1 + b2 + more, dest), |b1|);
      && first == (Done, HostIO(NCK + ACK, WriteRequest(b1), b2 + more, dest))
      && WriteChunk(first.1, |b2|) == (Failed(Announce), HostIO(ACK, WriteRequest(b1) + CHK, more, dest))
  {
    Associative(ACK + ACK + ACK + ACK, NCK, ACK);
    Associative(b1, b2, more);
    FirstChunkLeavesVerdict(HostIO(ACK + ACK + ACK + ACK + NCK + ACK, [], b1 + b2 + more, dest), b1, b2 + more, NCK + ACK);
    StaleNckRefusesAnnounce(HostIO(NCK + ACK, WriteRequest(b1), b2 + more, dest), b2, more, ACK);
  }

  /** Four acks complete a write chunk, whatever follows them. */
  lemma FirstChunkLeavesVerdict(io: HostIO, b1: Bytes, rest: Bytes, unread: Bytes)
    requires |b1| <= CHUNK_SIZE
    requires io.inbox == ACK + ACK + ACK + ACK + unread && io.sent == [] && io.source == b1 + rest
    ensures WriteChunk(io, |b1|) == (Done, HostIO(unread, WriteRequest(b1), rest, io.dest))
  {
    assert Take(b1 + rest, |b1|) == b1 && (b1 + rest)[|b1|..] == rest;
    WriteChunkAllAcked(io, |b1|, unread);
    assert [] + CHK == CHK;
  }

  /** An "nck" first in the inbox fails the next chunk at its announcement. */
  lemma StaleNckRefusesAnnounce(io: HostIO, b2: Bytes, more: Bytes, unread: Bytes)
    requires |b2| <= CHUNK_SIZE
    requires io.inbox == NCK + unread && io.source == b2 + more
    ensures WriteChunk(io, |b2|) == (Failed(Announce), HostIO(unread, io.sent + CHK, more, io.dest))
  {
    assert Tokens(ACK, 0) == [];
    assert io.inbox == Tokens(ACK, 0) + NCK + unread;
    WriteChunkRefusalIsFinal(io, |b2|, 0, NCK, unread);
    assert Take(b2 + more, |b2|) == b2 && (b2 + more)[|b2|..] == more;
  }
}
