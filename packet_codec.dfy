/** The 48-byte NTP message as the client builds and reads it: the request
    header, the validity gate on a server response, and the decoding of the
    transmit timestamp's seconds word. The header layout is the one of
    section 7.3 of RFC 5905, the timestamp format that of section 6. */
module PacketCodec {
  import opened Arduino
  import opened NtpConfig

  /** A buffer of exactly NTP_PACKET_SIZE bytes. */
  type Packet = p: seq<Byte> | |p| == PacketSize witness seq(48, _ => 0 as bv8)

  // Header fields of byte 0, extracted with the masks the client uses.
  function LeapIndicator(p: Packet): Byte { (p[0] & 0xC0) >> 6 }
  function Version(p: Packet): Byte { (p[0] & 0x38) >> 3 }
  function Mode(p: Packet): Byte { p[0] & 0x07 }
  function Stratum(p: Packet): Byte { p[1] }

  /** The response gate of `isValid`, one early `return false` per check,
      in the order the client tests them. The reference-timestamp test reads
      bytes 16 to 22 and tests byte 22 twice; byte 23 is never read. */
  predicate IsValid(p: Packet)
  {
    if p[0] & 0xC0 == 0xC0 then false                    // LI = 3, unsynchronised
    else if (p[0] & 0x38) >> 3 < 4 then false            // version below 4
    else if p[0] & 0x07 != 4 then false                  // mode is not server
    else if p[1] < 1 || p[1] > 15 then false             // stratum 0 or reserved
    else if p[16] == 0 && p[17] == 0 && p[18] == 0 && p[19] == 0
         && p[20] == 0 && p[21] == 0 && p[22] == 0 && p[22] == 0 then false
    else true
  }

  /** The bytes of the reference timestamp that the gate inspects. */
  predicate ReferenceSeen(p: Packet)
  {
    exists i :: 16 <= i <= 22 && p[i] != 0
  }

  /** `isValid` accepts exactly the packets that pass every field check. */
  lemma {:induction false} IsValidIff(p: Packet)
    ensures IsValid(p) <==>
      LeapIndicator(p) != 3 && Version(p) >= 4 && Mode(p) == 4 &&
      1 <= Stratum(p) <= 15 && ReferenceSeen(p)
  {
    if !ReferenceSeen(p) {
      assert p[16] == 0 && p[17] == 0 && p[18] == 0 && p[19] == 0;
      assert p[20] == 0 && p[21] == 0 && p[22] == 0;
    } else {
      var i :| 16 <= i <= 22 && p[i] != 0;
    }
  }

  /** Byte 23 of the reference timestamp never influences the verdict. */
  lemma {:induction false} IsValidIgnoresByte23(p: Packet, b: Byte)
    ensures IsValid(p[23 := b]) == IsValid(p)
  {
  }

  /** Consequence: a packet whose only non-zero reference byte is byte 23
      is rejected although its reference timestamp is not zero. */
  lemma {:induction false} NonZeroReferenceRejected(p: Packet)
    requires LeapIndicator(p) != 3 && Version(p) >= 4 && Mode(p) == 4
    requires 1 <= Stratum(p) <= 15
    requires forall i :: 16 <= i <= 22 ==> p[i] == 0
    requires p[23] != 0
    ensures !IsValid(p)
    ensures p[16..24] != seq(8, _ => 0 as bv8)
  {
    assert p[16..24][7] == p[23];
  }

  /** The request `sendNTPPacket` leaves in the buffer: every byte zero except
      the header byte 0xE3, stratum 0, poll exponent 6, precision 0xEC and
      the reference identifier 0x49 0x4E 0x49 0x52. */
  function RequestPacket(): (p: Packet)
    ensures p[0] == 0xE3 && p[1] == 0 && p[2] == 6 && p[3] == 0xEC
    ensures p[12] == 0x49 && p[13] == 0x4E && p[14] == 0x49 && p[15] == 0x52
    ensures forall i :: 4 <= i < 12 || 16 <= i < 48 ==> p[i] == 0
  {
    [0xE3, 0, 6, 0xEC] + seq(8, _ => 0) + [0x49, 0x4E, 0x49, 0x52] + seq(32, _ => 0)
  }

  /** The request header byte 0xE3 encodes LI = 3, VN = 4, Mode = 3. */
  lemma {:induction false} RequestHeaderFields()
    ensures LeapIndicator(RequestPacket()) == 3
    ensures Version(RequestPacket()) == 4
    ensures Mode(RequestPacket()) == 3
  {
  }

  /** The client's own request never passes its response gate (its LI is 3). */
  lemma {:induction false} RequestRejected()
    ensures !IsValid(RequestPacket())
  {
    RequestHeaderFields();
    IsValidIff(RequestPacket());
  }

  /** Arduino `word(h, l)`: the 16-bit value `h << 8 | l`. */
  function Word(h: Byte, l: Byte): (r: nat)
    ensures r < 0x1_0000
  {
    Val(h) * 256 + Val(l)
  }

  /** The seconds word of the transmit timestamp (bytes 40 to 43), read
      big-endian as `highWord << 16 | lowWord`: NTP seconds since 1900. */
  function TransmitSeconds(p: Packet): (r: ULong)
  {
    Word(p[40], p[41]) * 0x1_0000 + Word(p[42], p[43])
  }

  /** The line `m_currentEpoc = secsSince1900 - SEVENZYYEARS`, in 32-bit
      unsigned arithmetic. The wrap-around makes a seconds word of NTP era 1
      (from 2036-02-07) decode to the right Unix time as well, up to
      2106-02-07; an era-0 word before 1970 cannot be told from it. */
  function DecodeEpoch(p: Packet): (r: ULong)
    ensures (r + SeventyYears) % TwoTo32 == TransmitSeconds(p)
    ensures TransmitSeconds(p) >= SeventyYears ==> r == TransmitSeconds(p) - SeventyYears
  {
    Sub(TransmitSeconds(p), SeventyYears)
  }

  /** The decoded value is the big-endian number in bytes 40..43, less the
      1900-to-1970 offset, modulo 2^32. */
  lemma {:induction false} DecodeEpochBigEndian(p: Packet)
    ensures DecodeEpoch(p) ==
      (Val(p[40]) * 0x100_0000 + Val(p[41]) * 0x1_0000 + Val(p[42]) * 0x100 + Val(p[43])
       - SeventyYears) % TwoTo32
  {
  }

  /** Writes a seconds word big-endian into bytes 40..43. */
  function PutTransmitSeconds(p: Packet, n: ULong): (q: Packet)
    ensures forall i :: 0 <= i < PacketSize && !(40 <= i < 44) ==> q[i] == p[i]
  {
    var n1 := n / 0x100;
    var n2 := n1 / 0x100;
    p[40 := (n2 / 0x100) as bv8]
     [41 := (n2 % 0x100) as bv8]
     [42 := (n1 % 0x100) as bv8]
     [43 := (n % 0x100) as bv8]
  }

  /** Writes the NTP seconds word of Unix time `e` into the transmit
      timestamp, as a server does, leaving the other bytes alone. */
  function EncodeEpoch(p: Packet, e: ULong): (q: Packet)
    ensures forall i :: 0 <= i < PacketSize && !(40 <= i < 44) ==> q[i] == p[i]
  {
    PutTransmitSeconds(p, Wrap(e + SeventyYears))
  }

  /** The transmit timestamp is not one of the fields the gate inspects. */
  lemma {:induction false} EncodeKeepsValidity(p: Packet, e: ULong)
    ensures IsValid(EncodeEpoch(p, e)) == IsValid(p)
  {
  }

  /** A byte stores any value below 256 unchanged. */
  lemma {:induction false} ByteRoundTrip(x: int)
    requires 0 <= x < 256
    ensures Val(x as bv8) == x
  {
  }

  /** Two stored bytes read back as the 16-bit word they were cut from. */
  lemma {:induction false} WordRoundTrip(h: int, l: int)
    requires 0 <= h < 256 && 0 <= l < 256
    ensures Word(h as bv8, l as bv8) == h * 256 + l
  {
    ByteRoundTrip(h);
    ByteRoundTrip(l);
  }

  /** Reading back the word written into bytes 40..43 gives that word. */
  lemma {:induction false} TransmitSecondsPut(p: Packet, n: ULong)
    ensures TransmitSeconds(PutTransmitSeconds(p, n)) == n
  {
    var b3, b2, b1, b0 := ByteSplit(n);
    var q := PutTransmitSeconds(p, n);
    assert q[40] == b3 as bv8 && q[41] == b2 as bv8;
    assert q[42] == b1 as bv8 && q[43] == b0 as bv8;
    WordRoundTrip(b3, b2);
    WordRoundTrip(b1, b0);
  }

  /** The four bytes `PutTransmitSeconds` stores, most significant first. */
  lemma {:induction false} ByteSplit(n: ULong) returns (b3: int, b2: int, b1: int, b0: int)
    ensures b3 == n / 0x100 / 0x100 / 0x100 && b2 == n / 0x100 / 0x100 % 0x100
    ensures b1 == n / 0x100 % 0x100 && b0 == n % 0x100
    ensures 0 <= b3 < 256 && 0 <= b2 < 256 && 0 <= b1 < 256 && 0 <= b0 < 256
    ensures n == (b3 * 0x100 + b2) * 0x1_0000 + b1 * 0x100 + b0
  {
    var n1 := n / 0x100;
    var n2 := n1 / 0x100;
    b3, b2, b1, b0 := n2 / 0x100, n2 % 0x100, n1 % 0x100, n % 0x100;
  }

  /** Decoding what was encoded gives the Unix time back. */
  lemma {:induction false} DecodeEncode(p: Packet, e: ULong)
    ensures DecodeEpoch(EncodeEpoch(p, e)) == e
  {
    TransmitSecondsPut(p, Wrap(e + SeventyYears));
    if e + SeventyYears < TwoTo32 {
      assert Wrap(e + SeventyYears) == e + SeventyYears;
    } else {
      assert Wrap(e + SeventyYears) == e + SeventyYears - TwoTo32;
    }
  }

  /** The decoded time depends on bytes 40..43 and nothing else. */
  lemma {:induction false} DecodeEpochReadsTransmitSeconds(p: Packet, q: Packet)
    requires p[40..44] == q[40..44]
    ensures DecodeEpoch(p) == DecodeEpoch(q)
  {
    assert p[40] == p[40..44][0] == q[40];
    assert p[41] == p[40..44][1] == q[41];
    assert p[42] == p[40..44][2] == q[42];
    assert p[43] == p[40..44][3] == q[43];
  }

  /** NTP seconds 0x83AA7E80 (bytes 83 AA 7E 80) are the Unix epoch. */
  lemma {:induction false} UnixEpochBytes(p: Packet)
    requires p[40] == 0x83 && p[41] == 0xAA && p[42] == 0x7E && p[43] == 0x80
    ensures DecodeEpoch(p) == 0
  {
  }

  /** The first second of NTP era 1, seconds word 0 (2036-02-07T06:28:16Z),
      decodes to that instant's Unix time 2^32 - 2208988800. */
  lemma {:induction false} EraOneStartBytes(p: Packet)
    requires p[40] == 0 && p[41] == 0 && p[42] == 0 && p[43] == 0
    ensures DecodeEpoch(p) == 2085978496
  {
  }
}
