/** Bytes on the serial link between the host tool and the controller:
    the 3-byte status and command tokens, the little-endian integer fields,
    and the additive checksum both sides compute over a chunk. */
module Wire {

  newtype byte = x: int | 0 <= x < 0x100
  type Bytes = seq<byte>

  /** Payload bytes per full chunk (eepromrw.py:12; the firmware's Config.h
      is taken to define the same value). */
  const CHUNK_SIZE: nat := 16

  const ACK: Bytes := [0x61, 0x63, 0x6B]  // "ack"
  const NCK: Bytes := [0x6E, 0x63, 0x6B]  // "nck"
  const CHK: Bytes := [0x63, 0x68, 0x6B]  // "chk"
  const RST: Bytes := [0x72, 0x73, 0x74]  // "rst"
  const WRT: Bytes := [0x77, 0x72, 0x74]  // "wrt"
  const RD: Bytes := [0x72, 0x64, 0x20]   // "rd "
  const SEMICOLON: byte := 0x3B           // ";"

  /** `k` copies of the 3-byte token `t`, back to back. */
  function Tokens(t: Bytes, k: nat): (r: Bytes)
    ensures |r| == k * |t|
  {
    if k == 0 then [] else t + Tokens(t, k - 1)
  }

  /** What a read of `n` bytes returns from a stream that holds `s`: all of
      them, or fewer when the stream runs dry first. */
  function Take(s: Bytes, n: nat): (r: Bytes)
    ensures |r| <= n && |r| <= |s|
    ensures |r| == n || r == s
    ensures s == r + s[|r|..]
  {
    if n <= |s| then s[..n] else s
  }

  /** Concatenation regroups freely; stated once so that proofs can regroup
      a stream without the solver searching for it. */
  lemma Associative(a: Bytes, b: Bytes, c: Bytes)
    ensures a + b + c == a + (b + c)
  {
  }

  /** The sum of the byte values, accumulated from the left. */
  function Sum(s: Bytes): nat
  {
    if s == [] then 0 else Sum(s[..|s| - 1]) + s[|s| - 1] as nat
  }

  /** The chunk checksum: the byte sum modulo 256. */
  function Checksum(s: Bytes): byte
  {
    (Sum(s) % 0x100) as byte
  }

  function Pow256(width: nat): (p: nat)
    ensures p >= 1
  {
    if width == 0 then 1 else 0x100 * Pow256(width - 1)
  }

  /** `x` as a `width`-byte little-endian unsigned integer, least significant
      byte first (Python's struct formats "<H" and "<I", and the byte order
      of integers in AVR memory). */
  function LE(x: nat, width: nat): (r: Bytes)
    ensures |r| == width
  {
    if width == 0 then [] else [(x % 0x100) as byte] + LE(x / 0x100, width - 1)
  }

  /** The unsigned integer whose little-endian bytes are `s`. */
  function FromLE(s: Bytes): (x: nat)
    ensures x < Pow256(|s|)
  {
    if s == [] then 0 else s[0] as nat + 0x100 * FromLE(s[1..])
  }

  /** Decoding an encoded field gives the value back, for every value that fits. */
  lemma {:induction false} FromLEOfLE(x: nat, width: nat)
    requires x < Pow256(width)
    ensures FromLE(LE(x, width)) == x
  {
    if width > 0 {
      FromLEOfLE(x / 0x100, width - 1);
    }
  }

  /** Encoding a decoded field gives the same bytes back. */
  lemma {:induction false} LEOfFromLE(s: Bytes)
    ensures LE(FromLE(s), |s|) == s
  {
    if s != [] {
      var x := FromLE(s);
      assert x % 0x100 == s[0] as nat && x / 0x100 == FromLE(s[1..]);
      LEOfFromLE(s[1..]);
    }
  }

  /** The 4-byte checksum field: the checksum widened to an unsigned 32-bit
      integer, little-endian. */
  function ChecksumField(c: byte): (r: Bytes)
    ensures |r| == 4
  {
    LE(c as nat, 4)
  }

  /** The checksum travels in the first byte of its field, the other three
      are zero, and the receiver decodes the checksum back. */
  lemma ChecksumFieldLayout(c: byte)
    ensures ChecksumField(c) == [c, 0, 0, 0]
    ensures FromLE(ChecksumField(c)) == c as nat
  {
    assert LE(0, 3) == [0, 0, 0];
    FromLEOfLE(c as nat, 4);
  }
}
