/**
 * The ICMP Echo header codec of ICMP_Pinger.py: `struct` format "bbHHh" on a
 * little-endian host, the request built by `sendOnePing`, and the decoding of
 * a received datagram behind a 20-byte IPv4 header in `receiveOnePing`.
 */
module EchoCodec {
  import opened Wrappers
  import opened Bytes
  import opened InternetChecksum

  const IcmpEchoRequest: int8 := 8
  const EchoSequence: int16 := 1
  const IpHeaderLength := 20
  const IcmpHeaderLength := 8
  const StampLength := 8
  /** Largest echo payload an IPv4 datagram can carry: 65535 - 20 - 8. */
  const MaxEchoPayload := 65507

  /** The five fields of "bbHHh". */
  datatype IcmpHeader = IcmpHeader(icmpType: int8, code: int8, checksum: uint16, id: uint16, sequence: int16)

  /** `struct.pack("bbHHh", ...)`: native sizes, little-endian, no padding (offsets 0, 1, 2, 4, 6). */
  function Pack(h: IcmpHeader): (r: seq<byte>)
    ensures |r| == IcmpHeaderLength
  {
    [Int8Bits(h.icmpType), Int8Bits(h.code)]
      + LittleEndian16(h.checksum) + LittleEndian16(h.id) + LittleEndian16(Int16Bits(h.sequence))
  }

  /** `struct.unpack("bbHHh", b)`, which demands exactly eight bytes. */
  function Unpack(b: seq<byte>): (h: IcmpHeader)
    requires |b| == IcmpHeaderLength
    ensures Int8Bits(h.icmpType) == b[0] && Int8Bits(h.code) == b[1]
    ensures h.checksum == (b[3] as int) * 0x100 + b[2] && h.id == (b[5] as int) * 0x100 + b[4]
    ensures Int16Bits(h.sequence) == (b[7] as int) * 0x100 + b[6]
  {
    IcmpHeader(Int8Of(b[0]), Int8Of(b[1]), ReadLittleEndian16(b[2], b[3]),
               ReadLittleEndian16(b[4], b[5]), Int16Of(ReadLittleEndian16(b[6], b[7])))
  }

  lemma UnpackPack(h: IcmpHeader)
    ensures Unpack(Pack(h)) == h
  {
    Int8RoundTrip(h.icmpType);
    Int8RoundTrip(h.code);
  }

  lemma PackUnpack(b: seq<byte>)
    requires |b| == IcmpHeaderLength
    ensures Pack(Unpack(b)) == b
  {
  }

  /** `htons` on a little-endian host: stored natively, the result puts the high byte first. */
  function Htons(x: uint16): (r: uint16)
    ensures LittleEndian16(r) == [x / 0x100, x % 0x100]
  {
    Swap16(x)
  }

  /** The checksum field `sendOnePing` stores, on either branch of its platform test (lines 109-113). */
  function ChecksumField(checksum: uint16, darwin: bool): (r: uint16)
    ensures r == Htons(checksum)
  {
    if darwin then Htons(checksum) % 0x1_0000 else Htons(checksum)
  }

  function RequestHeader(checksum: uint16, id: uint16): IcmpHeader
  {
    IcmpHeader(IcmpEchoRequest, 0, checksum, id, EchoSequence)
  }

  /** The datagram `sendOnePing` transmits for identifier `id` and payload `data`. */
  function EchoRequest(id: uint16, data: seq<byte>): (r: seq<byte>)
    ensures |r| == IcmpHeaderLength + |data| && r[IcmpHeaderLength..] == data
  {
    var field := Htons(ChecksumOf(Pack(RequestHeader(0, id)) + data));
    Pack(RequestHeader(field, id)) + data
  }

  /** `sendOnePing` (ICMP_Pinger.py:97-116) up to the `sendto`, whose argument it returns. */
  method SendOnePing(id: uint16, data: seq<byte>, darwin: bool) returns (packet: seq<byte>)
    ensures packet == EchoRequest(id, data)
  {
    var myChecksum := 0;
    var header := Pack(RequestHeader(myChecksum, id));
    myChecksum := Checksum(header + data);
    myChecksum := ChecksumField(myChecksum, darwin);
    header := Pack(RequestHeader(myChecksum, id));
    packet := header + data;
  }

  /** The ICMP header of a received datagram: bytes 20..28, or None where `struct.unpack` would fail. */
  function DecodeHeader(packet: seq<byte>): (r: Option<IcmpHeader>)
    ensures r.Some? <==> |packet| >= IpHeaderLength + IcmpHeaderLength
  {
    if |packet| < IpHeaderLength + IcmpHeaderLength then None
    else Some(Unpack(packet[IpHeaderLength..IpHeaderLength + IcmpHeaderLength]))
  }

  /** A decoded header is the one whose packing is bytes 20..28 of the datagram. */
  lemma DecodeHeaderPacks(packet: seq<byte>)
    requires |packet| >= IpHeaderLength + IcmpHeaderLength
    ensures Pack(DecodeHeader(packet).value) == packet[IpHeaderLength..IpHeaderLength + IcmpHeaderLength]
  {
    PackUnpack(packet[IpHeaderLength..IpHeaderLength + IcmpHeaderLength]);
  }

  /** The send time carried in the payload, here a millisecond tick count in eight little-endian bytes. */
  function EncodeStamp(t: uint64): (r: seq<byte>)
    ensures |r| == StampLength
  {
    LittleEndianN(t, StampLength)
  }

  function DecodeStamp(b: seq<byte>): nat
    requires |b| == StampLength
  {
    ReadLittleEndianN(b)
  }

  /** Where the send stamp starts in a received datagram. */
  const StampOffset := IpHeaderLength + IcmpHeaderLength

  /** `struct.unpack("d", recPacket[28:36])` of line 88. */
  function SendStamp(packet: seq<byte>): (t: nat)
    requires |packet| >= StampOffset + StampLength
    ensures t < 0x1_0000_0000_0000_0000 && EncodeStamp(t) == packet[StampOffset..StampOffset + StampLength]
  {
    var b := packet[StampOffset..StampOffset + StampLength];
    assert Pow256(StampLength) == 0x1_0000_0000_0000_0000;
    ReadLittleEndianNEncodes(b);
    DecodeStamp(b)
  }

  lemma StampRoundTrip(t: uint64)
    ensures DecodeStamp(EncodeStamp(t)) == t
  {
    assert Pow256(StampLength) == 0x1_0000_0000_0000_0000;
    LittleEndianNRoundTrip(t, StampLength);
  }

  /** Any header packed behind a 20-byte IP header decodes to itself; the payload follows it. */
  lemma DecodeBehindIpHeader(ip: seq<byte>, h: IcmpHeader, data: seq<byte>)
    requires |ip| == IpHeaderLength
    ensures DecodeHeader(ip + (Pack(h) + data)) == Some(h)
    ensures (ip + (Pack(h) + data))[IpHeaderLength + IcmpHeaderLength..] == data
  {
    var p := ip + (Pack(h) + data);
    assert p[IpHeaderLength..IpHeaderLength + IcmpHeaderLength] == Pack(h);
    UnpackPack(h);
  }

  /**
   * Codec round trip: behind any 20-byte IP header the request decodes to type 8,
   * code 0, the caller's identifier, sequence 1 and the inserted checksum, and the
   * bytes after the ICMP header are exactly the payload.
   */
  lemma DecodeEchoRequest(ip: seq<byte>, id: uint16, data: seq<byte>)
    requires |ip| == IpHeaderLength
    ensures var field := Htons(ChecksumOf(Pack(RequestHeader(0, id)) + data));
            DecodeHeader(ip + EchoRequest(id, data)) == Some(IcmpHeader(8, 0, field, id, 1))
    ensures (ip + EchoRequest(id, data))[IpHeaderLength + IcmpHeaderLength..] == data
  {
    var field := Htons(ChecksumOf(Pack(RequestHeader(0, id)) + data));
    assert EchoRequest(id, data) == Pack(RequestHeader(field, id)) + data;
    DecodeBehindIpHeader(ip, RequestHeader(field, id), data);
  }

  /** The word sum of a packed header, field by field. */
  lemma WordSumPack(h: IcmpHeader)
    ensures WordSum(Pack(h)) == Int8Bits(h.icmpType) + Int8Bits(h.code) * 0x100
                                + h.checksum + h.id + Int16Bits(h.sequence)
  {
    var t, c := Int8Bits(h.icmpType), Int8Bits(h.code);
    var a, b, q := LittleEndian16(h.checksum), LittleEndian16(h.id), LittleEndian16(Int16Bits(h.sequence));
    var p := Pack(h);
    assert p == [t, c] + (a + (b + q));
    assert p[2..] == a + (b + q);
    assert WordSum(q) == Int16Bits(h.sequence) by {
      assert q[2..] == [];
    }
    WordSumAppend(a, b + q);
    WordSumAppend(b, q);
    assert WordSum(a) == h.checksum by {
      assert a[2..] == [];
    }
    assert WordSum(b) == h.id by {
      assert b[2..] == [];
    }
  }

  /**
   * Checksum self-check: recomputing the checksum over the transmitted request,
   * with the real checksum in place, gives 0 for every payload an IPv4 datagram can carry.
   */
  lemma EchoRequestSelfCheck(id: uint16, data: seq<byte>)
    requires |data| <= MaxEchoPayload
    ensures ChecksumOf(EchoRequest(id, data)) == 0
  {
    var s0 := Pack(RequestHeader(0, id)) + data;
    var field := Htons(ChecksumOf(s0));
    var s1 := Pack(RequestHeader(field, id)) + data;
    assert EchoRequest(id, data) == s1;
    var w0, w1 := WordSum(s0), WordSum(s1);
    assert w1 == w0 + (0xffff - EndAroundCarry(w0)) by {
      RequestSumFits(id, data, 0);
      RequestWordSum(id, data, field);
      StoredFieldIsComplement(s0);
    }
    assert w1 % Modulus32 == w1 by {
      RequestSumFits(id, data, field);
    }
    assert EndAroundCarry(w1) == 0xffff by {
      SumWithComplementFolds(w0);
    }
    assert ChecksumOf(s1) == Swap16(0);
  }

  /** Storing `field` in the header adds exactly `field` to the word sum of the request. */
  lemma RequestWordSum(id: uint16, data: seq<byte>, field: uint16)
    ensures WordSum(Pack(RequestHeader(field, id)) + data) == WordSum(Pack(RequestHeader(0, id)) + data) + field
  {
    WordSumAppend(Pack(RequestHeader(0, id)), data);
    WordSumAppend(Pack(RequestHeader(field, id)), data);
    WordSumPack(RequestHeader(0, id));
    WordSumPack(RequestHeader(field, id));
  }

  /** On an IPv4-sized request the word sum never reaches the 32-bit mask. */
  lemma RequestSumFits(id: uint16, data: seq<byte>, field: uint16)
    requires |data| <= MaxEchoPayload
    ensures WordSum(Pack(RequestHeader(field, id)) + data) < Modulus32
    ensures WordSum(Pack(RequestHeader(field, id)) + data) % Modulus32 == WordSum(Pack(RequestHeader(field, id)) + data)
  {
    NoWrap(Pack(RequestHeader(field, id)) + data);
  }

  /** `htons` undoes the final swap of `checksum`, so the stored field is the complemented fold. */
  lemma StoredFieldIsComplement(s: seq<byte>)
    requires WordSum(s) < Modulus32
    ensures Htons(ChecksumOf(s)) == 0xffff - EndAroundCarry(WordSum(s))
  {
    assert WordSum(s) % Modulus32 == WordSum(s);
    Swap16Involution(0xffff - EndAroundCarry(WordSum(s)));
  }

  /** Adding the complement of its own folded value makes any sum fold to 0xffff. */
  lemma SumWithComplementFolds(s: nat)
    ensures EndAroundCarry(s + (0xffff - EndAroundCarry(s))) == 0xffff
  {
    var r := EndAroundCarry(s);
    if s > 0 {
      assert s - 1 == 0xffff * ((s - 1) / 0xffff) + (r - 1);
      ModShift(0xffff - 1, (s - 1) / 0xffff);
      assert s + (0xffff - r) - 1 == 0xffff * ((s - 1) / 0xffff) + (0xffff - 1);
    }
  }
}
