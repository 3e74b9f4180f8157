/** What the host's protocol (eepromrw.py) promises, proved about the
    functions that the host procedures are verified against. */
module HostProperties {
  import opened Wire
  import opened Host

  /** A chunk exchange in which the controller acknowledges all four steps
      sends the announcement, the 2-byte size, the bytes read from the file and
      the 4-byte checksum, in that order, and consumes exactly four replies. */
  lemma WriteChunkAllAcked(io: HostIO, n: nat, rest: Bytes)
    requires n < 0x10000
    requires io.inbox == ACK + ACK + ACK + ACK + rest
    ensures var b := Take(io.source, n);
      WriteChunk(io, n) == (Done, HostIO(rest, io.sent + CHK + LE(|b|, 2) + b + ChecksumField(Checksum(b)),
                                         io.source[|b|..], io.dest))
  {
    var b := Take(io.source, n);
    var inbox := io.inbox;
    assert inbox[..3] == ACK && inbox[3..][..3] == ACK;
    assert inbox[6..][..3] == ACK && inbox[9..][..3] == ACK;
    assert inbox[3..][3..][3..][3..] == rest;
  }

  /** A refusal of the announcement (`j == 0`), of the size (`j == 1`) or of the
      payload (`j == 2`) ends the exchange at once with `False`: nothing more is
      sent and the exchange is not retried. */
  lemma WriteChunkRefusalIsFinal(io: HostIO, n: nat, j: nat, refusal: Bytes, rest: Bytes)
    requires n < 0x10000 && j < 3
    requires |refusal| == 3 && refusal != ACK
    requires io.inbox == Tokens(ACK, j) + refusal + rest
    ensures var b := Take(io.source, n);
      var messages := [CHK, LE(|b|, 2), b];
      WriteChunk(io, n) == (Failed([Announce, SizeField, Payload][j]),
                            HostIO(rest, io.sent + Prefix(messages, j + 1), io.source[|b|..], io.dest))
  {
    var inbox := io.inbox;
    var b := Take(io.source, n);
    var messages := [CHK, LE(|b|, 2), b];
    assert Prefix(messages, 1) == CHK;
    assert Prefix(messages, 2) == CHK + LE(|b|, 2);
    assert Prefix(messages, 3) == CHK + LE(|b|, 2) + b;
    var io1 := io.(source := io.source[|b|..]).Send(CHK);
    if j == 0 {
      assert inbox[..3] == refusal && inbox[3..] == rest;
      return;
    }
    assert Tokens(ACK, j) == ACK + Tokens(ACK, j - 1);
    assert inbox[..3] == ACK && inbox[3..] == Tokens(ACK, j - 1) + refusal + rest;
    var io2 := io1.(inbox := inbox[3..]).Send(LE(|b|, 2));
    assert io2.sent == io.sent + Prefix(messages, 2);
    if j == 1 {
      assert io2.inbox[..3] == refusal && io2.inbox[3..] == rest;
      return;
    }
    assert io2.inbox[..3] == ACK && io2.inbox[3..] == refusal + rest;
    var io3 := io2.(inbox := io2.inbox[3..]).Send(b);
    assert io3.sent == io.sent + Prefix(messages, 3);
    assert io3.inbox[..3] == refusal && io3.inbox[3..] == rest;
  }

  /** A refusal of the read announcement (`j == 0`) or of the requested size
      (`j == 1`) ends `do_read_chunk` at once with `False`: no checksum is read,
      nothing more is sent, the file is untouched and nothing is retried. */
  lemma ReadChunkRefusalIsFinal(io: HostIO, n: nat, j: nat, refusal: Bytes, rest: Bytes)
    requires n < 0x10000 && j < 2
    requires |refusal| == 3 && refusal != ACK
    requires io.inbox == Tokens(ACK, j) + refusal + rest
    ensures ReadChunk(io, n) == (Failed([Announce, SizeField][j]),
                                 HostIO(rest, io.sent + Prefix([CHK, LE(n, 2)], j + 1), io.source, io.dest))
  {
    var messages := [CHK, LE(n, 2)];
    assert Prefix(messages, 1) == CHK;
    assert Prefix(messages, 2) == CHK + LE(n, 2);
    if j == 0 {
      assert io.inbox == refusal + rest;
      ReadAnnounceRefused(io, n, refusal, rest);
    } else {
      assert Tokens(ACK, 1) == ACK;
      ReadSizeRefused(io, n, refusal, rest);
      Associative(io.sent, CHK, LE(n, 2));
    }
  }

  lemma ReadAnnounceRefused(io: HostIO, n: nat, refusal: Bytes, rest: Bytes)
    requires n < 0x10000
    requires |refusal| == 3 && refusal != ACK
    requires io.inbox == refusal + rest
    ensures ReadChunk(io, n) == (Failed(Announce), HostIO(rest, io.sent + CHK, io.source, io.dest))
  {
    ReadAwait(io.Send(CHK), refusal, rest);
  }

  lemma ReadSizeRefused(io: HostIO, n: nat, refusal: Bytes, rest: Bytes)
    requires n < 0x10000
    requires |refusal| == 3 && refusal != ACK
    requires io.inbox == ACK + refusal + rest
    ensures ReadChunk(io, n) == (Failed(SizeField), HostIO(rest, io.sent + CHK + LE(n, 2), io.source, io.dest))
  {
    Associative(ACK, refusal, rest);
    ReadAwait(io.Send(CHK), ACK, refusal + rest);
    ReadAwait(io.Send(CHK).(inbox := refusal + rest).Send(LE(n, 2)), refusal, rest);
  }

  /** `wait_for_ack` reads the three bytes at the head of the inbox. */
  lemma ReadAwait(io: HostIO, token: Bytes, rest: Bytes)
    requires |token| == 3 && io.inbox == token + rest
    ensures io.Await() == (if token == ACK then Acked else Refused, io.(inbox := rest))
  {
    assert io.inbox[..3] == token && io.inbox[3..] == rest;
  }

  /** The first `k` messages of `messages`, back to back. */
  function Prefix(messages: seq<Bytes>, k: nat): Bytes
    requires k <= |messages|
  {
    if k == 0 then [] else Prefix(messages, k - 1) + messages[k - 1]
  }

  /** A refused checksum makes the host start the exchange again with the NEXT
      bytes of the file: the cursor is not rewound, so the retried chunk is not
      the one the controller refused. */
  lemma WriteRetryReadsNextBytes(io: HostIO, n: nat, refusal: Bytes, rest: Bytes)
    requires n < 0x10000
    requires |refusal| == 3 && refusal != ACK
    requires io.inbox == ACK + ACK + ACK + refusal + rest
    ensures var b := Take(io.source, n);
      WriteChunk(io, n) ==
        WriteChunk(HostIO(rest, io.sent + CHK + LE(|b|, 2) + b + ChecksumField(Checksum(b)),
                          io.source[|b|..], io.dest), n)
  {
    var inbox := io.inbox;
    assert inbox[..3] == ACK && inbox[3..][..3] == ACK;
    assert inbox[6..][..3] == ACK && inbox[9..][..3] == refusal;
    assert inbox[3..][3..][3..][3..] == rest;
  }

  /** After the announcement and the size were acknowledged, `do_read_chunk`
      decides on the checksum field and the payload that follow: a mismatch is
      answered "nck" and the exchange starts again; a matching but short
      payload is answered "nck" and fails without touching the file; otherwise
      the host answers "ack" and appends exactly the payload to the file. */
  lemma ReadChunkOutcomes(io: HostIO, n: nat, field: Bytes, rest: Bytes)
    requires n < 0x10000
    requires |field| == 4
    requires io.inbox == ACK + ACK + field + rest
    ensures var b := Take(rest, n);
      var after := HostIO(rest[|b|..], io.sent + CHK + LE(n, 2), io.source, io.dest);
      && (FromLE(field) != Checksum(b) as nat ==> ReadChunk(io, n) == ReadChunk(after.Send(NCK), n))
      && (FromLE(field) == Checksum(b) as nat && |b| < n ==>
            ReadChunk(io, n) == (Failed(MissingData), after.Send(NCK)))
      && (FromLE(field) == Checksum(b) as nat && |b| == n ==>
            ReadChunk(io, n) == (Done, after.Send(ACK).(dest := io.dest + b)))
  {
    var inbox := io.inbox;
    assert inbox[..3] == ACK && inbox[3..][..3] == ACK;
    var io2 := HostIO(inbox[6..], io.sent + CHK + LE(n, 2), io.source, io.dest);
    assert ReadChunk(io, n) == ReceiveChunk(io2, n);
    assert io2.inbox[..4] == field && io2.inbox[4..] == rest;
    var b := Take(rest, n);
    assert io2.inbox[4 + |b|..] == rest[|b|..];
  }

  /** A chunk read changes the destination file only when it succeeds, and then
      appends exactly `n` bytes, however many retries it took. */
  lemma {:induction false} ReadChunkAppendsOnlyOnSuccess(io: HostIO, n: nat)
    requires n < 0x10000
    ensures var r := ReadChunk(io, n);
      && (r.0 == Done ==> |r.1.dest| == |io.dest| + n)
      && (r.0 != Done ==> r.1.dest == io.dest)
    decreases |io.inbox|
  {
    var (a1, io1) := io.Send(CHK).Await();
    if a1 == Acked {
      var (a2, io2) := io1.Send(LE(n, 2)).Await();
      if a2 == Acked && |io2.inbox| >= 4 {
        var b := Take(io2.inbox[4..], n);
        var io3 := io2.(inbox := io2.inbox[4 + |b|..]);
        if Checksum(b) as nat != FromLE(io2.inbox[..4]) {
          ReadChunkAppendsOnlyOnSuccess(io3.Send(NCK), n);
        }
      }
    }
  }

  /** Successful full-size chunk reads add `CHUNK_SIZE` bytes each to the
      destination file. */
  lemma {:induction false} ExchangesReadLength(io: HostIO, k: nat)
    ensures var r := Exchanges(io, k, FromChip);
      r.0 == Done ==> |r.1.dest| == |io.dest| + k * CHUNK_SIZE
  {
    if k > 0 {
      ExchangesReadLength(io, k - 1);
      var (s, io1) := Exchanges(io, k - 1, FromChip);
      if s == Done {
        ReadChunkAppendsOnlyOnSuccess(io1, CHUNK_SIZE);
      }
    }
  }

  /** A read transfer of `amount` bytes that completes has appended exactly
      `amount` bytes to the destination file: the full chunks and the
      remainder together cover the requested size. A negative `amount` runs
      no full chunk and reads one chunk of `amount` modulo 16 bytes (11 bytes
      for -5). */
  lemma ReadSessionLength(io: HostIO, chip: Bytes, amount: int)
    ensures var r := Session(io, FromChip, chip, amount);
      r.0 == Done ==> |r.1.dest| == |io.dest| + (if amount >= 0 then amount else amount % CHUNK_SIZE)
  {
    var (a, io1) := io.Send(RST + ModeCommand(FromChip) + ChipFrame(chip)).Await();
    if a == Acked {
      var (chunks, remaining) := Split(amount);
      ExchangesReadLength(io1, Iterations(chunks));
      var (s, io2) := Exchanges(io1, Iterations(chunks), FromChip);
      if s == Done {
        ReadChunkAppendsOnlyOnSuccess(io2, remaining);
      }
    }
  }

  /** Chunk exchanges only ever add to what was sent. */
  lemma {:induction false} ExchangesExtendSent(io: HostIO, k: nat, dir: Direction)
    ensures io.sent <= Exchanges(io, k, dir).1.sent
  {
    if k > 0 {
      ExchangesExtendSent(io, k - 1, dir);
    }
  }

  /** Every transfer opens with "rst", the mode command and the chip name
      terminated by ";", before any "chk". */
  lemma SessionStartsWithHandshake(io: HostIO, dir: Direction, chip: Bytes, size: int)
    ensures io.sent + RST + ModeCommand(dir) + ChipFrame(chip) <= Session(io, dir, chip, size).1.sent
  {
    var (a, io1) := io.Send(RST + ModeCommand(dir) + ChipFrame(chip)).Await();
    if a == Acked {
      var (chunks, remaining) := Split(size);
      ExchangesExtendSent(io1, Iterations(chunks), dir);
    }
  }

  /** When the controller does not acknowledge the handshake, the transfer
      ends there: no chunk is announced and neither file is touched. */
  lemma HandshakeRefused(io: HostIO, dir: Direction, chip: Bytes, size: int)
    requires AwaitAck(io.inbox).0 != Acked
    ensures var r := Session(io, dir, chip, size);
      && r.0 in {Failed(Handshake), Hung}
      && r.1.sent == io.sent + RST + ModeCommand(dir) + ChipFrame(chip)
      && r.1.source == io.source && r.1.dest == io.dest
  {
  }

  /** Each chunk exchange, even one of zero bytes, starts by announcing the
      chunk with "chk". */
  lemma ExchangeAnnounces(io: HostIO, n: nat, dir: Direction)
    requires n < 0x10000
    ensures io.sent + CHK <= Exchange(io, n, dir).1.sent
  {
    if dir == ToChip {
      var b := Take(io.source, n);
      var io0 := io.(source := io.source[|b|..]).Send(CHK);
      assert io0.sent == io.sent + CHK;
      var (a1, io1) := io0.Await();
      if a1 == Acked {
        var (a2, io2) := io1.Send(LE(|b|, 2)).Await();
        if a2 == Acked {
          var (a3, io3) := io2.Send(b).Await();
          if a3 == Acked {
            var (a4, io4) := io3.Send(ChecksumField(Checksum(b))).Await();
            assert io0.sent <= io4.sent;
          }
        }
      }
    } else {
      var io0 := io.Send(CHK);
      var (a1, io1) := io0.Await();
      if a1 == Acked {
        var (a2, io2) := io1.Send(LE(n, 2)).Await();
        assert io0.sent <= io2.sent;
      }
    }
  }

  /** The remainder chunk is exchanged after the full chunks even when the
      transfer size is a multiple of CHUNK_SIZE and it holds no bytes. */
  lemma EmptyRemainderStillExchanged(io: HostIO, chunks: nat, dir: Direction)
    requires Exchanges(io, chunks, dir).0 == Done
    ensures Exchanges(io, chunks, dir).1.sent + CHK <= Transfer(io, chunks, 0, dir).1.sent
  {
    ExchangeAnnounces(Exchanges(io, chunks, dir).1, 0, dir);
  }
}
