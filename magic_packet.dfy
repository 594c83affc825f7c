/** `create_payload`: the Wake-on-LAN "Magic Packet" (AMD's Magic Packet
    Technology white paper) for a MAC address. The packet is 17 blocks of
    6 bytes: a synchronisation block of six 0xFF bytes, then the MAC address
    16 times over. The source fills a 102-byte buffer with 0xFF and then
    overwrites blocks 1 to 16 with `mac[0..6]` in two nested loops. */
module MagicPacket {
  import opened Hex

  const BlockSize: nat := 6
  const Blocks: nat := 17
  const PayloadSize: nat := Blocks * BlockSize

  /** The synchronisation block. */
  const SyncStream: seq<Byte> := [0xFF, 0xFF, 0xFF, 0xFF, 0xFF, 0xFF]

  /** `block` written `n` times in a row. */
  function Repeat(block: seq<Byte>, n: nat): (r: seq<Byte>)
    ensures |r| == n * |block|
  {
    if n == 0 then [] else block + Repeat(block, n - 1)
  }

  /** The packet for `mac`: the synchronisation block, then the first six
      bytes of `mac` sixteen times. */
  function Payload(mac: seq<Byte>): seq<Byte>
    requires |mac| >= BlockSize
  {
    SyncStream + Repeat(mac[..BlockSize], Blocks - 1)
  }

  /** Byte i of a repeated six-byte block is byte i mod 6 of the block. */
  lemma {:induction false} RepeatAt(block: seq<Byte>, n: nat, i: nat)
    requires |block| == BlockSize && i < n * BlockSize
    ensures Repeat(block, n)[i] == block[i % BlockSize]
  {
    if i >= BlockSize {
      assert (i - BlockSize) % BlockSize == i % BlockSize;
      RepeatAt(block, n - 1, i - BlockSize);
    }
  }

  /** The packet is 102 bytes; the first six are 0xFF and every later byte i is `mac[i % 6]`. */
  lemma PayloadAt(mac: seq<Byte>, i: nat)
    requires |mac| >= BlockSize && i < PayloadSize
    ensures |Payload(mac)| == PayloadSize
    ensures Payload(mac)[i] == if i < BlockSize then 0xFF else mac[i % BlockSize]
  {
    if i >= BlockSize {
      RepeatAt(mac[..BlockSize], Blocks - 1, i - BlockSize);
      assert (i - BlockSize) % BlockSize == i % BlockSize;
    }
  }

  /** Bytes of `mac` after the sixth never reach the packet. */
  lemma PayloadIgnoresTail(mac: seq<Byte>, other: seq<Byte>)
    requires |mac| >= BlockSize && |other| >= BlockSize
    requires mac[..BlockSize] == other[..BlockSize]
    ensures Payload(mac) == Payload(other)
  {
  }

  /** The packet of the source's test: 0xFF six times, then 00 01 02 03 04 05 sixteen times. */
  lemma PayloadTestVector()
    ensures |Payload([0, 1, 2, 3, 4, 5])| == PayloadSize
    ensures forall i :: 0 <= i < BlockSize ==> Payload([0, 1, 2, 3, 4, 5])[i] == 0xFF
    ensures forall i :: BlockSize <= i < PayloadSize ==> Payload([0, 1, 2, 3, 4, 5])[i] == i % BlockSize
  {
    forall i | 0 <= i < PayloadSize
      ensures Payload([0, 1, 2, 3, 4, 5])[i] == if i < BlockSize then 0xFF else i % BlockSize
    {
      PayloadAt([0, 1, 2, 3, 4, 5], i);
    }
  }

  /** Block k (0-based) of a packet. */
  function Block(p: seq<Byte>, k: nat): seq<Byte>
    requires (k + 1) * BlockSize <= |p|
  {
    p[k * BlockSize..(k + 1) * BlockSize]
  }

  /** The packet layout of the white paper: 102 bytes, a synchronisation
      block, and the six-byte address in each of the 16 following blocks. */
  ghost predicate IsMagicPacketFor(p: seq<Byte>, mac: seq<Byte>)
  {
    |p| == PayloadSize && |mac| == BlockSize &&
    Block(p, 0) == SyncStream &&
    forall k :: 1 <= k < Blocks ==> Block(p, k) == mac
  }

  /** A 102-byte sequence is the magic packet for a six-byte address exactly
      when it is `Payload` of that address. */
  lemma PayloadIsMagicPacket(p: seq<Byte>, mac: seq<Byte>)
    requires |mac| == BlockSize
    ensures IsMagicPacketFor(p, mac) <==> p == Payload(mac)
  {
    var q := Payload(mac);
    PayloadAt(mac, 0);
    forall k | 0 <= k < Blocks
      ensures Block(q, k) == if k == 0 then SyncStream else mac
    {
      forall j | 0 <= j < BlockSize
        ensures Block(q, k)[j] == (if k == 0 then SyncStream else mac)[j]
      {
        PayloadAt(mac, k * BlockSize + j);
        assert (k * BlockSize + j) % BlockSize == j;
      }
    }
    if IsMagicPacketFor(p, mac) {
      forall i | 0 <= i < PayloadSize ensures p[i] == q[i] {
        var k, j := i / BlockSize, i % BlockSize;
        assert i == k * BlockSize + j;
        assert Block(p, k)[j] == p[i] && Block(q, k)[j] == q[i];
      }
    }
  }

  /** `create_payload(mac)`: a buffer of 0xFF bytes, then blocks 1 to 16
      overwritten with `mac[0..6]`. The source indexes `mac` without a check,
      so it needs at least six bytes. */
  method CreatePayload(mac: seq<Byte>) returns (payload: seq<Byte>)
    requires |mac| >= BlockSize
    ensures |payload| == PayloadSize
    ensures forall i :: 0 <= i < BlockSize ==> payload[i] == 0xFF
    ensures forall i :: BlockSize <= i < PayloadSize ==> payload[i] == mac[i % BlockSize]
    ensures payload == Payload(mac)
  {
    var buf := new Byte[PayloadSize](_ => 0xFF);
    for x := 1 to Blocks
      invariant forall i :: 0 <= i < PayloadSize ==>
        buf[i] == if BlockSize <= i < x * BlockSize then mac[i % BlockSize] else 0xFF
    {
      for y := 0 to BlockSize
        invariant forall i :: 0 <= i < PayloadSize ==>
          buf[i] == if BlockSize <= i < x * BlockSize + y then mac[i % BlockSize] else 0xFF
      {
        assert (x * BlockSize + y) % BlockSize == y;
        buf[x * BlockSize + y] := mac[y];
      }
    }
    payload := buf[..];
    forall i | 0 <= i < PayloadSize ensures payload[i] == Payload(mac)[i] {
      PayloadAt(mac, i);
    }
    PayloadAt(mac, 0);
  }
}
