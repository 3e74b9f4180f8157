/** Whole transfers on the host side (eepromrw.py, `do_write` and `do_read`):
    what the host sends, and what ends up in the destination file, when the
    controller acknowledges every step of every chunk. */
module HostTransfers {
  import opened Wire
  import opened Host
  import opened HostProperties

  /** Byte strings back to back. */
  function Concat(parts: seq<Bytes>): Bytes
  {
    if parts == [] then [] else Concat(parts[..|parts| - 1]) + parts[|parts| - 1]
  }

  predicate FullChunks(parts: seq<Bytes>)
  {
    forall i :: 0 <= i < |parts| ==> |parts[i]| == CHUNK_SIZE
  }

  /** The first `k` full chunks of `s`. */
  function Pieces(s: Bytes, k: nat): (parts: seq<Bytes>)
    requires k * CHUNK_SIZE <= |s|
    ensures |parts| == k && FullChunks(parts)
  {
    if k == 0 then [] else Pieces(s, k - 1) + [s[(k - 1) * CHUNK_SIZE..k * CHUNK_SIZE]]
  }

  /** How a transfer of `s` cuts it up: the full chunks, then the remainder,
      which may be empty. */
  function Chunks(s: Bytes): seq<Bytes>
  {
    var k := |s| / CHUNK_SIZE;
    Pieces(s, k) + [s[k * CHUNK_SIZE..]]
  }

  /** Everything the host sends for the write chunks `parts`. */
  function WriteRequests(parts: seq<Bytes>): Bytes
  {
    if parts == [] then [] else WriteRequests(parts[..|parts| - 1]) + WriteRequest(parts[|parts| - 1])
  }

  /** Everything the host sends for the read chunks `parts`. */
  function ReadRequests(parts: seq<Bytes>): Bytes
  {
    if parts == [] then [] else ReadRequests(parts[..|parts| - 1]) + ReadRequest(|parts[|parts| - 1]|)
  }

  /** What the controller answers to the read chunks `parts`: for each, "ack"
      to the announcement and to the size, then the checksum field and the
      bytes. */
  function ReadReply(p: Bytes): Bytes
  {
    ACK + ACK + ChecksumField(Checksum(p)) + p
  }

  function ReadReplies(parts: seq<Bytes>): Bytes
  {
    if parts == [] then [] else ReadReplies(parts[..|parts| - 1]) + ReadReply(parts[|parts| - 1])
  }

  lemma {:induction false} PiecesCover(s: Bytes, k: nat)
    requires k * CHUNK_SIZE <= |s|
    ensures Concat(Pieces(s, k)) == s[..k * CHUNK_SIZE]
  {
    if k > 0 {
      PiecesCover(s, k - 1);
      var parts := Pieces(s, k);
      assert parts[..k - 1] == Pieces(s, k - 1);
      assert s[..(k - 1) * CHUNK_SIZE] + s[(k - 1) * CHUNK_SIZE..k * CHUNK_SIZE] == s[..k * CHUNK_SIZE];
    }
  }

  /** Every file is cut into `|s| / 16` full chunks and one shorter remainder,
      and the chunks, back to back, are the file again. */
  lemma ChunksCoverFile(s: Bytes)
    ensures var parts := Chunks(s);
      && |parts| == |s| / CHUNK_SIZE + 1
      && FullChunks(parts[..|parts| - 1])
      && |parts[|parts| - 1]| == |s| % CHUNK_SIZE
      && Concat(parts) == s
  {
    var k := |s| / CHUNK_SIZE;
    var parts := Chunks(s);
    PiecesCover(s, k);
    assert parts[..k] == Pieces(s, k);
  }

  lemma {:induction false} TokensAdd(t: Bytes, a: nat, b: nat)
    ensures Tokens(t, a + b) == Tokens(t, a) + Tokens(t, b)
  {
    if a > 0 {
      TokensAdd(t, a - 1, b);
      Associative(t, Tokens(t, a - 1), Tokens(t, b));
    }
  }

  /** Full write chunks, each acknowledged four times, are sent one after the
      other, each with the next 16 bytes of the file. */
  lemma {:induction false} ExchangesWriteAllAcked(io: HostIO, parts: seq<Bytes>, more: Bytes, rest: Bytes)
    requires FullChunks(parts)
    requires io.source == Concat(parts) + more
    requires io.inbox == Tokens(ACK, 4 * |parts|) + rest
    ensures Exchanges(io, |parts|, ToChip) == (Done, HostIO(rest, io.sent + WriteRequests(parts), more, io.dest))
  {
    if parts != [] {
      var k := |parts| - 1;
      var last := parts[k];
      var tail := Tokens(ACK, 4) + rest;
      TokensAdd(ACK, 4 * k, 4);
      Associative(Tokens(ACK, 4 * k), Tokens(ACK, 4), rest);
      Associative(Concat(parts[..k]), last, more);
      assert FullChunks(parts[..k]);
      assert io.source == Concat(parts[..k]) + (last + more);
      assert 4 * |parts| == 4 * k + 4;
      assert io.inbox == Tokens(ACK, 4 * k) + tail;
      ExchangesWriteAllAcked(io, parts[..k], last + more, tail);
      var io1 := HostIO(tail, io.sent + WriteRequests(parts[..k]), last + more, io.dest);
      ExchangesNext(io, k, ToChip, io1);
      WriteChunkSends(io1, last, more, rest);
      Associative(io.sent, WriteRequests(parts[..k]), WriteRequest(last));
    } else {
      assert io.inbox == rest && io.source == more && io.sent + [] == io.sent;
    }
  }

  /** The `k + 1`-th full chunk is exchanged where the first `k` left off. */
  lemma ExchangesNext(io: HostIO, k: nat, dir: Direction, io1: HostIO)
    requires Exchanges(io, k, dir) == (Done, io1)
    ensures Exchanges(io, k + 1, dir) == Exchange(io1, CHUNK_SIZE, dir)
  {
  }

  /** One write chunk acknowledged four times: the host sends the request
      for the next `|b|` bytes of the file and moves the cursor past them. */
  lemma WriteChunkSends(io: HostIO, b: Bytes, more: Bytes, rest: Bytes)
    requires |b| <= CHUNK_SIZE
    requires io.source == b + more
    requires io.inbox == Tokens(ACK, 4) + rest
    ensures WriteChunk(io, |b|) == (Done, HostIO(rest, io.sent + WriteRequest(b), more, io.dest))
  {
    assert io.inbox == ACK + ACK + ACK + ACK + rest;
    assert Take(b + more, |b|) == b && (b + more)[|b|..] == more;
    WriteChunkAllAcked(io, |b|, rest);
    SendsWriteRequest(io.sent, b);
  }

  lemma SendsWriteRequest(sent: Bytes, b: Bytes)
    ensures sent + CHK + LE(|b|, 2) + b + ChecksumField(Checksum(b)) == sent + WriteRequest(b)
  {
    var size, field := LE(|b|, 2), ChecksumField(Checksum(b));
    Associative(sent + CHK + size, b, field);
    Associative(sent + CHK, size, b + field);
    Associative(sent, CHK, size + (b + field));
    Associative(CHK + size, b, field);
    Associative(CHK, size, b + field);
  }

  /** Full read chunks whose replies all arrive intact append their bytes to
      the file, one after the other. */
  lemma {:induction false} ExchangesReadAllAcked(io: HostIO, parts: seq<Bytes>, rest: Bytes)
    requires FullChunks(parts)
    requires io.inbox == ReadReplies(parts) + rest
    ensures Exchanges(io, |parts|, FromChip)
      == (Done, HostIO(rest, io.sent + ReadRequests(parts), io.source, io.dest + Concat(parts)))
  {
    if parts != [] {
      var k := |parts| - 1;
      var last := parts[k];
      Associative(ReadReplies(parts[..k]), ReadReply(last), rest);
      ExchangesReadAllAcked(io, parts[..k], ReadReply(last) + rest);
      var io1 := HostIO(ReadReply(last) + rest, io.sent + ReadRequests(parts[..k]), io.source, io.dest + Concat(parts[..k]));
      ExchangesNext(io, k, FromChip, io1);
      ReadChunkReceives(io1, last, rest);
      Associative(io.sent, ReadRequests(parts[..k]), ReadRequest(|last|));
      Associative(io.dest, Concat(parts[..k]), last);
    } else {
      assert io.inbox == rest && io.sent + [] == io.sent && io.dest + [] == io.dest;
    }
  }

  /** One read chunk answered intact: the host sends "chk", the size and
      "ack", and appends exactly the chunk's bytes. */
  lemma ReadChunkReceives(io: HostIO, p: Bytes, rest: Bytes)
    requires |p| <= CHUNK_SIZE
    requires io.inbox == ReadReply(p) + rest
    ensures ReadChunk(io, |p|) == (Done, HostIO(rest, io.sent + ReadRequest(|p|), io.source, io.dest + p))
  {
    var field := ChecksumField(Checksum(p));
    var x := field + p + rest;
    ReadReplyParts(field, p, rest);
    ReadChunkSizeAcked(io, |p|, x);
    var io2 := HostIO(x, io.sent + CHK + LE(|p|, 2), io.source, io.dest);
    ReceiveIntact(io2, p, rest);
    SendsReadRequest(io.sent, |p|);
  }

  lemma ReadReplyParts(field: Bytes, p: Bytes, rest: Bytes)
    ensures ACK + ACK + field + p + rest == ACK + ACK + (field + p + rest)
  {
    Associative(ACK + ACK + field, p, rest);
    Associative(ACK + ACK, field, p + rest);
    Associative(field, p, rest);
  }

  lemma SendsReadRequest(sent: Bytes, n: nat)
    ensures sent + CHK + LE(n, 2) + ACK == sent + ReadRequest(n)
  {
    Associative(sent + CHK, LE(n, 2), ACK);
    Associative(sent, CHK, LE(n, 2) + ACK);
    Associative(CHK, LE(n, 2), ACK);
  }

  /** Two acks let `do_read_chunk` go on to the checksum and the payload. */
  lemma ReadChunkSizeAcked(io: HostIO, n: nat, x: Bytes)
    requires n < 0x10000
    requires io.inbox == ACK + ACK + x
    ensures ReadChunk(io, n) == ReceiveChunk(HostIO(x, io.sent + CHK + LE(n, 2), io.source, io.dest), n)
  {
    assert io.inbox[..3] == ACK && io.inbox[3..][..3] == ACK && io.inbox[3..][3..] == x;
  }

  /** A checksum field that matches a full payload: the host acknowledges
      and appends the payload. */
  lemma ReceiveIntact(io: HostIO, p: Bytes, rest: Bytes)
    requires |p| <= CHUNK_SIZE
    requires io.inbox == ChecksumField(Checksum(p)) + p + rest
    ensures ReceiveChunk(io, |p|) == (Done, HostIO(rest, io.sent + ACK, io.source, io.dest + p))
  {
    ChecksumFieldLayout(Checksum(p));
    assert io.inbox[..4] == ChecksumField(Checksum(p));
    assert io.inbox[4..] == p + rest;
    assert Take(p + rest, |p|) == p;
    assert io.inbox[4 + |p|..] == rest;
  }

  /** An acknowledged handshake leads to the chunk exchanges. */
  lemma SessionAfterHandshake(io: HostIO, dir: Direction, chip: Bytes, size: int, x: Bytes)
    requires io.inbox == ACK + x
    ensures var (chunks, remaining) := Split(size);
      Session(io, dir, chip, size)
        == Transfer(HostIO(x, io.sent + (RST + ModeCommand(dir) + ChipFrame(chip)), io.source, io.dest),
                    Iterations(chunks), remaining, dir)
  {
    assert io.inbox[..3] == ACK && io.inbox[3..] == x;
  }

  /** `Chunks` as the transfer loop uses it: `Split(|s|)` full chunks that,
      followed by the remainder, make up `s`. */
  lemma ChunksSplit(s: Bytes)
    ensures var parts := Chunks(s);
      var k := |s| / CHUNK_SIZE;
      && |parts| == k + 1 && |parts[k]| < CHUNK_SIZE
      && FullChunks(parts[..k])
      && Split(|s|) == (k, |parts[k]|)
      && Concat(parts[..k]) + parts[k] == s
  {
    var parts := Chunks(s);
    var k := |s| / CHUNK_SIZE;
    ChunksCoverFile(s);
    assert parts[..k] == Pieces(s, k);
  }

  /** The remainder chunk is exchanged where the full chunks left off. */
  lemma TransferLast(io: HostIO, k: nat, n: nat, dir: Direction, io1: HostIO)
    requires n < CHUNK_SIZE
    requires Exchanges(io, k, dir) == (Done, io1)
    ensures Transfer(io, k, n, dir) == Exchange(io1, n, dir)
  {
  }

  lemma WriteInboxParts(k: nat, rest: Bytes)
    ensures ACK + Tokens(ACK, 4 * (k + 1)) + rest == ACK + (Tokens(ACK, 4 * k) + (Tokens(ACK, 4) + rest))
  {
    TokensAdd(ACK, 4 * k, 4);
    Associative(Tokens(ACK, 4 * k), Tokens(ACK, 4), rest);
    Associative(ACK, Tokens(ACK, 4 * k + 4), rest);
  }

  lemma ReadInboxParts(init: Bytes, last: Bytes, rest: Bytes)
    ensures ACK + (init + last) + rest == ACK + (init + (last + rest))
  {
    Associative(init, last, rest);
    Associative(ACK, init + last, rest);
  }

  /** A whole write of the file `source` that the controller acknowledges
      throughout: after the handshake, the host sends every chunk of the file
      in order, the remainder last, and the file is read to its end. Together
      with `ChunksCoverFile`, the payloads sent are exactly the file. */
  lemma WriteSessionSendsFile(io: HostIO, chip: Bytes, rest: Bytes)
    requires io.inbox == ACK + Tokens(ACK, 4 * |Chunks(io.source)|) + rest
    ensures Session(io, ToChip, chip, |io.source|)
      == (Done, HostIO(rest, io.sent + (RST + WRT + ChipFrame(chip)) + WriteRequests(Chunks(io.source)), [], io.dest))
  {
    var s := io.source;
    var parts := Chunks(s);
    var k := |s| / CHUNK_SIZE;
    var last := parts[k];
    ChunksSplit(s);
    var tail := Tokens(ACK, 4) + rest;
    WriteInboxParts(k, rest);
    var io1 := HostIO(Tokens(ACK, 4 * k) + tail, io.sent + (RST + WRT + ChipFrame(chip)), s, io.dest);
    SessionAfterHandshake(io, ToChip, chip, |s|, io1.inbox);
    ExchangesWriteAllAcked(io1, parts[..k], last, tail);
    var io2 := HostIO(tail, io1.sent + WriteRequests(parts[..k]), last, io.dest);
    TransferLast(io1, k, |last|, ToChip, io2);
    assert last == last + [];
    WriteChunkSends(io2, last, [], rest);
    Associative(io1.sent, WriteRequests(parts[..k]), WriteRequest(last));
  }

  /** A whole read of `|data|` bytes whose replies all arrive intact: after
      the handshake, the host requests every chunk in order, the remainder
      last, and the destination file gains exactly `data`. */
  lemma ReadSessionReceivesData(io: HostIO, chip: Bytes, data: Bytes, rest: Bytes)
    requires io.inbox == ACK + ReadReplies(Chunks(data)) + rest
    ensures Session(io, FromChip, chip, |data|)
      == (Done, HostIO(rest, io.sent + (RST + RD + ChipFrame(chip)) + ReadRequests(Chunks(data)), io.source, io.dest + data))
  {
    var parts := Chunks(data);
    var k := |data| / CHUNK_SIZE;
    var last := parts[k];
    ChunksSplit(data);
    var tail := ReadReply(last) + rest;
    ReadInboxParts(ReadReplies(parts[..k]), ReadReply(last), rest);
    var io1 := HostIO(ReadReplies(parts[..k]) + tail, io.sent + (RST + RD + ChipFrame(chip)), io.source, io.dest);
    SessionAfterHandshake(io, FromChip, chip, |data|, io1.inbox);
    ExchangesReadAllAcked(io1, parts[..k], tail);
    var io2 := HostIO(tail, io1.sent + ReadRequests(parts[..k]), io.source, io.dest + Concat(parts[..k]));
    TransferLast(io1, k, |last|, FromChip, io2);
    ReadChunkReceives(io2, last, rest);
    Associative(io1.sent, ReadRequests(parts[..k]), ReadRequest(|last|));
    Associative(io.dest, Concat(parts[..k]), last);
  }
}
