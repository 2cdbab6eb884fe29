/** The byte layouts of DTLS: big-endian integers, the handshake fragment header
    (RFC 6347, section 4.2.2) and the record header (section 4.1). */
module DtlsWire {
  import opened Options
  import opened Words

  const HM_HEADER_LENGTH := 12
  const RT_HEADER_LENGTH := 13

  function U16(v: nat): (b: seq<byte>)
    requires v < 0x1_0000
    ensures |b| == 2
  {
    [v / 0x100, v % 0x100]
  }

  function U24(v: nat): (b: seq<byte>)
    requires v < 0x100_0000
    ensures |b| == 3
  {
    [v / 0x1_0000, v / 0x100 % 0x100, v % 0x100]
  }

  function U48(v: nat): (b: seq<byte>)
    requires v < 0x1_0000_0000_0000
    ensures |b| == 6
  {
    U24(v / 0x100_0000) + U24(v % 0x100_0000)
  }

  function GetU16(b: seq<byte>): (v: nat)
    requires |b| == 2
    ensures v < 0x1_0000
  {
    0x100 * (b[0] as int) + b[1] as int
  }

  function GetU24(b: seq<byte>): (v: nat)
    requires |b| == 3
    ensures v < 0x100_0000
  {
    0x1_0000 * (b[0] as int) + 0x100 * (b[1] as int) + b[2] as int
  }

  function GetU48(b: seq<byte>): (v: nat)
    requires |b| == 6
    ensures v < 0x1_0000_0000_0000
  {
    0x100_0000 * GetU24(b[..3]) + GetU24(b[3..])
  }

  lemma U16RoundTrip(v: nat)
    requires v < 0x1_0000
    ensures GetU16(U16(v)) == v
  {
  }

  lemma U24RoundTrip(v: nat)
    requires v < 0x100_0000
    ensures GetU24(U24(v)) == v
  {
  }

  lemma U48RoundTrip(v: nat)
    requires v < 0x1_0000_0000_0000
    ensures GetU48(U48(v)) == v
  {
    var h, l := v / 0x100_0000, v % 0x100_0000;
    assert U48(v)[..3] == U24(h) && U48(v)[3..] == U24(l);
  }

  lemma U16Inverse(b: seq<byte>)
    requires |b| == 2
    ensures U16(GetU16(b)) == b
  {
  }

  lemma U24Inverse(b: seq<byte>)
    requires |b| == 3
    ensures U24(GetU24(b)) == b
  {
  }

  // ---------- handshake fragments ----------

  datatype FragmentHeader = FragmentHeader(typ: byte, msgLen: nat, seqNum: nat, fragOff: nat, fragLen: nat) {
    predicate Fits() {
      msgLen < 0x100_0000 && seqNum < 0x1_0000 && fragOff < 0x100_0000 && fragLen < 0x100_0000
    }
  }

  function HeaderBytes(h: FragmentHeader): (b: seq<byte>)
    requires h.Fits()
    ensures |b| == HM_HEADER_LENGTH
  {
    [h.typ] + U24(h.msgLen) + U16(h.seqNum) + U24(h.fragOff) + U24(h.fragLen)
  }

  datatype Fragment = Fragment(hdr: FragmentHeader, body: seq<byte>, rest: seq<byte>)

  /** dtls1_parse_fragment: None when the header or the body is cut short. */
  function ParseFragment(cbs: seq<byte>): Option<Fragment> {
    if |cbs| < HM_HEADER_LENGTH then None
    else
      var hdr := FragmentHeader(cbs[0], GetU24(cbs[1..4]), GetU16(cbs[4..6]), GetU24(cbs[6..9]), GetU24(cbs[9..12]));
      var after := cbs[HM_HEADER_LENGTH..];
      if |after| < hdr.fragLen then None
      else Some(Fragment(hdr, after[..hdr.fragLen], after[hdr.fragLen..]))
  }

  /** Parsing is the exact inverse of assembling: it succeeds on precisely the byte strings that
      start with a header and its body, and returns them. */
  lemma ParseOfAssembled(h: FragmentHeader, body: seq<byte>, rest: seq<byte>)
    requires h.Fits() && |body| == h.fragLen
    ensures ParseFragment(HeaderBytes(h) + body + rest) == Some(Fragment(h, body, rest))
  {
    var hb := HeaderBytes(h);
    var cbs := hb + body + rest;
    assert cbs[0] == h.typ;
    assert cbs[1..4] == U24(h.msgLen);
    assert cbs[4..6] == U16(h.seqNum);
    assert cbs[6..9] == U24(h.fragOff);
    assert cbs[9..12] == U24(h.fragLen);
    U24RoundTrip(h.msgLen);
    U16RoundTrip(h.seqNum);
    U24RoundTrip(h.fragOff);
    U24RoundTrip(h.fragLen);
    assert cbs[HM_HEADER_LENGTH..] == body + rest;
    assert (body + rest)[..|body|] == body && (body + rest)[|body|..] == rest;
  }

  lemma AssembledOfParse(cbs: seq<byte>)
    requires ParseFragment(cbs).Some?
    ensures var f := ParseFragment(cbs).value;
            f.hdr.Fits() && |f.body| == f.hdr.fragLen && cbs == HeaderBytes(f.hdr) + f.body + f.rest
  {
    var f := ParseFragment(cbs).value;
    U24Inverse(cbs[1..4]);
    U16Inverse(cbs[4..6]);
    U24Inverse(cbs[6..9]);
    U24Inverse(cbs[9..12]);
    var after := cbs[HM_HEADER_LENGTH..];
    assert after == f.body + f.rest;
    assert HeaderBytes(f.hdr) == cbs[..HM_HEADER_LENGTH];
  }

  // ---------- records ----------

  datatype RecordHeader = RecordHeader(typ: byte, version: nat, epoch: nat, seqNum: nat) {
    predicate Fits() {
      version < 0x1_0000 && epoch < 0x1_0000 && seqNum < 0x1_0000_0000_0000
    }

    /** The eight sequence bytes read as one big-endian integer. */
    function Number(): nat {
      0x1_0000_0000_0000 * epoch + seqNum
    }
  }

  function RecordBytes(h: RecordHeader, ciphertext: seq<byte>): (b: seq<byte>)
    requires h.Fits() && |ciphertext| < 0x1_0000
    ensures |b| == RT_HEADER_LENGTH + |ciphertext|
  {
    [h.typ] + U16(h.version) + U16(h.epoch) + U48(h.seqNum) + U16(|ciphertext|) + ciphertext
  }

  datatype ParsedRecord = ParsedRecord(hdr: RecordHeader, body: seq<byte>, rest: seq<byte>)

  function ParseRecord(cbs: seq<byte>): Option<ParsedRecord> {
    if |cbs| < RT_HEADER_LENGTH then None
    else
      var hdr := RecordHeader(cbs[0], GetU16(cbs[1..3]), GetU16(cbs[3..5]), GetU48(cbs[5..11]));
      var len := GetU16(cbs[11..13]);
      var after := cbs[RT_HEADER_LENGTH..];
      if |after| < len then None else Some(ParsedRecord(hdr, after[..len], after[len..]))
  }

  /** Base-256 value of a byte string, most significant byte first. */
  function BigEndian(b: seq<byte>): nat {
    if b == [] then 0 else 0x100 * BigEndian(b[..|b| - 1]) + b[|b| - 1] as nat
  }

  lemma BigEndianStep(a: seq<byte>, x: byte)
    ensures BigEndian(a + [x]) == 0x100 * BigEndian(a) + x as nat
  {
    assert (a + [x])[..|a|] == a;
  }

  lemma BigEndianAppend3(a: seq<byte>, b: seq<byte>)
    requires |b| == 3
    ensures BigEndian(a + b) == 0x100_0000 * BigEndian(a) + GetU24(b)
  {
    BigEndianStep(a, b[0]);
    BigEndianStep(a + [b[0]], b[1]);
    BigEndianStep(a + [b[0]] + [b[1]], b[2]);
    assert a + b == a + [b[0]] + [b[1]] + [b[2]];
  }

  /** The fields of both headers are big-endian, at the places that RFC 6347 gives them. */
  lemma U16IsBigEndian(v: nat)
    requires v < 0x1_0000
    ensures BigEndian(U16(v)) == v
  {
    BigEndianStep([], U16(v)[0]);
    BigEndianStep([U16(v)[0]], U16(v)[1]);
    assert U16(v) == [U16(v)[0]] + [U16(v)[1]] && [U16(v)[0]] == [] + [U16(v)[0]];
  }

  lemma U24IsBigEndian(v: nat)
    requires v < 0x100_0000
    ensures BigEndian(U24(v)) == v
  {
    U24RoundTrip(v);
    BigEndianAppend3([], U24(v));
    assert [] + U24(v) == U24(v);
  }

  lemma U48IsBigEndian(v: nat)
    requires v < 0x1_0000_0000_0000
    ensures BigEndian(U48(v)) == v
  {
    var h, l := v / 0x100_0000, v % 0x100_0000;
    U24IsBigEndian(h);
    U24RoundTrip(l);
    BigEndianAppend3(U24(h), U24(l));
  }

  lemma HeaderLayout(h: FragmentHeader)
    requires h.Fits()
    ensures var b := HeaderBytes(h);
            && b[0] == h.typ && BigEndian(b[1..4]) == h.msgLen && BigEndian(b[4..6]) == h.seqNum
            && BigEndian(b[6..9]) == h.fragOff && BigEndian(b[9..12]) == h.fragLen
  {
    hide U16, U24, BigEndian;
    U24IsBigEndian(h.msgLen);
    U16IsBigEndian(h.seqNum);
    U24IsBigEndian(h.fragOff);
    U24IsBigEndian(h.fragLen);
    var b := HeaderBytes(h);
    assert b[1..4] == U24(h.msgLen) && b[4..6] == U16(h.seqNum) && b[6..9] == U24(h.fragOff) && b[9..12] == U24(h.fragLen);
  }

  lemma RecordLayout(h: RecordHeader, ciphertext: seq<byte>)
    requires h.Fits() && |ciphertext| < 0x1_0000
    ensures var b := RecordBytes(h, ciphertext);
            && b[0] == h.typ && BigEndian(b[1..3]) == h.version && BigEndian(b[3..5]) == h.epoch
            && BigEndian(b[5..11]) == h.seqNum && BigEndian(b[11..13]) == |ciphertext| && b[13..] == ciphertext
  {
    hide U16, U48, BigEndian;
    U16IsBigEndian(h.version);
    U16IsBigEndian(h.epoch);
    U48IsBigEndian(h.seqNum);
    U16IsBigEndian(|ciphertext|);
    var b := RecordBytes(h, ciphertext);
    assert b[1..3] == U16(h.version) && b[3..5] == U16(h.epoch) && b[5..11] == U48(h.seqNum) && b[11..13] == U16(|ciphertext|);
  }

  /** The epoch and sequence fields together read as `to_u64_be` reads the eight bytes. */
  lemma NumberIsBigEndian(epoch: seq<byte>, seqNum: seq<byte>)
    requires |epoch| == 2 && |seqNum| == 6
    ensures BigEndian(epoch + seqNum) == 0x1_0000_0000_0000 * GetU16(epoch) + GetU48(seqNum)
  {
    BigEndianStep([], epoch[0]);
    BigEndianStep([epoch[0]], epoch[1]);
    assert epoch == [epoch[0]] + [epoch[1]] && [epoch[0]] == [] + [epoch[0]];
    BigEndianAppend3(epoch, seqNum[..3]);
    BigEndianAppend3(epoch + seqNum[..3], seqNum[3..]);
    assert epoch + seqNum == epoch + seqNum[..3] + seqNum[3..];
  }

  lemma ParseOfRecord(h: RecordHeader, ciphertext: seq<byte>, rest: seq<byte>)
    requires h.Fits() && |ciphertext| < 0x1_0000
    ensures ParseRecord(RecordBytes(h, ciphertext) + rest) == Some(ParsedRecord(h, ciphertext, rest))
  {
    var cbs := RecordBytes(h, ciphertext) + rest;
    assert cbs[0] == h.typ;
    assert cbs[1..3] == U16(h.version);
    assert cbs[3..5] == U16(h.epoch);
    assert cbs[5..11] == U48(h.seqNum);
    assert cbs[11..13] == U16(|ciphertext|);
    U16RoundTrip(h.version);
    U16RoundTrip(h.epoch);
    U48RoundTrip(h.seqNum);
    U16RoundTrip(|ciphertext|);
    assert cbs[RT_HEADER_LENGTH..] == ciphertext + rest;
    assert (ciphertext + rest)[..|ciphertext|] == ciphertext && (ciphertext + rest)[|ciphertext|..] == rest;
  }
}
