/** Reassembly of one incoming handshake message (RFC 6347, section 4.2.3): the bitmask of
    struct hm_fragment, refined against the set of body bytes received so far. */
module Reassembly {
  import opened Words
  import opened DtlsWire

  /** `bit_range`: bits start, inclusive, to end, exclusive, computed on 32-bit unsigned words and
      truncated to 8 bits. */
  function BitRange(start: nat, end: nat): byte
    requires start <= 8 && end <= 8
  {
    Pow2AtMost256(start);
    And(Not(32, Pow2(start) - 1), Pow2(end) - 1) % 0x100
  }

  lemma Pow2AtMost256(k: nat)
    requires k <= 8
    ensures Pow2(k) <= 256 == Pow2(8) < Pow2(32)
  {
    if k < 8 {
      Pow2Grows(k, 8);
    }
    Pow2Grows(8, 32);
    assert Pow2(8) == 256;
  }

  lemma BitOfBitRange(start: nat, end: nat, i: nat)
    requires start <= 8 && end <= 8 && i < 8
    ensures Bit(BitRange(start, end), i) <==> start <= i < end
  {
    hide Pow2, Bit, And, Not;
    Pow2AtMost256(start);
    var low, high := Not(32, Pow2(start) - 1), Pow2(end) - 1;
    BitOfTruncated(8, And(low, high), i);
    BitOfAnd(low, high, i);
    BitOfNot(32, Pow2(start) - 1, i);
    BitOfOnes(start, i);
    BitOfOnes(end, i);
  }

  /** Bit i of a mask byte. */
  predicate Bit8(b: byte, i: nat) {
    Bit(b, i)
  }

  ghost predicate HasBits(b: byte, lo: nat, hi: nat) {
    forall i: nat :: i < 8 ==> (Bit8(b, i) <==> lo <= i < hi)
  }

  /** Or-ing a bit range into a mask byte sets exactly that range. */
  function OrRange(b: byte, start: nat, end: nat): (r: byte)
    requires start <= 8 && end <= 8
    ensures forall i: nat :: i < 8 ==> (Bit8(r, i) <==> Bit8(b, i) || start <= i < end)
  {
    var m := BitRange(start, end);
    assert Pow2(8) == 0x100;
    OrBound(b, m, 8);
    assert forall i: nat :: i < 8 ==> (Bit8(Or(b, m), i) <==> Bit8(b, i) || start <= i < end) by {
      forall i: nat | i < 8
        ensures Bit8(Or(b, m), i) <==> Bit8(b, i) || start <= i < end
      {
        BitOfOr(b, m, i);
        BitOfBitRange(start, end, i);
      }
    }
    Or(b, m)
  }

  /** A byte equals `bit_range(0, r)` exactly when its bits are those below r. */
  lemma EqualsLowRange(b: byte, r: nat)
    requires r <= 8
    ensures b == BitRange(0, r) <==> HasBits(b, 0, r)
  {
    var m := BitRange(0, r);
    forall i: nat | i < 8
      ensures Bit8(m, i) <==> i < r
    {
      BitOfBitRange(0, r, i);
    }
    if b != m && HasBits(b, 0, r) {
      forall i: nat | i < 8
        ensures Bit(b, i) <==> Bit(m, i)
      {
        assert Bit8(b, i) <==> Bit8(m, i);
      }
      assert Pow2(8) == 0x100;
      SameBits(8, b, m);
    }
  }

  lemma FullByte(b: byte)
    ensures b == 0xff <==> HasBits(b, 0, 8)
  {
    EqualsLowRange(b, 8);
    var full := Pow2(8) - 1;
    assert full == 0xff;
    forall i: nat | i < 8
      ensures Bit(full, i) <==> Bit(BitRange(0, 8), i)
    {
      BitOfOnes(8, i);
      BitOfBitRange(0, 8, i);
    }
    SameBits(8, full, BitRange(0, 8));
  }

  /** Bit k of a mask stored eight bits to a byte. */
  predicate MaskBit(mask: seq<byte>, k: nat)
    requires k < 8 * |mask|
  {
    Bit8(mask[k / 8], k % 8)
  }

  /** `now` is `before` with the range [lo, hi) set. */
  ghost predicate Marked(before: seq<byte>, now: seq<byte>, lo: nat, hi: nat) {
    && |now| == |before|
    && forall k: nat :: k < 8 * |now| ==> (MaskBit(now, k) <==> MaskBit(before, k) || lo <= k < hi)
  }

  /** Extending the marked range inside byte j. */
  lemma MarkByte(before: seq<byte>, now: seq<byte>, lo: nat, mid: nat, hi: nat, j: nat, b: byte)
    requires Marked(before, now, lo, mid) && j < |now|
    requires lo <= mid && 8 * j <= mid <= hi <= 8 * j + 8
    requires forall i: nat :: i < 8 ==> (Bit8(b, i) <==> Bit8(now[j], i) || mid <= 8 * j + i < hi)
    ensures Marked(before, now[j := b], lo, hi)
  {
    var next := now[j := b];
    forall k: nat | k < 8 * |next|
      ensures MaskBit(next, k) <==> MaskBit(before, k) || lo <= k < hi
    {
      assert MaskBit(now, k) <==> MaskBit(before, k) || lo <= k < mid;
      if k / 8 == j {
        assert Bit8(b, k % 8) <==> Bit8(now[j], k % 8) || mid <= 8 * j + k % 8 < hi;
      }
    }
  }

  /** The mask has room for the message and no bit at or past its end. */
  ghost predicate MaskShape(mask: seq<byte>, msgLen: nat) {
    && |mask| == (msgLen + 7) / 8
    && forall k: nat :: msgLen <= k < 8 * |mask| ==> !MaskBit(mask, k)
  }

  ghost predicate AllMarked(mask: seq<byte>, len: nat)
    requires len <= 8 * |mask|
  {
    forall k: nat :: k < len ==> MaskBit(mask, k)
  }

  lemma FullPrefix(mask: seq<byte>, i: nat)
    requires i < |mask| && AllMarked(mask, 8 * i)
    ensures mask[i] == 0xff <==> AllMarked(mask, 8 * i + 8)
  {
    FullByte(mask[i]);
    forall k: nat | 8 * i <= k < 8 * i + 8
      ensures MaskBit(mask, k) <==> Bit8(mask[i], k - 8 * i)
    {
    }
    if AllMarked(mask, 8 * i + 8) {
      forall j: nat | j < 8
        ensures Bit8(mask[i], j)
      {
        assert MaskBit(mask, 8 * i + j);
      }
    }
  }

  /** The last byte holds r < 8 message bits; the shape leaves the others clear. */
  lemma FullTail(mask: seq<byte>, q: nat, r: nat)
    requires 0 < r < 8 && |mask| == q + 1 && MaskShape(mask, 8 * q + r) && AllMarked(mask, 8 * q)
    ensures mask[q] == BitRange(0, r) <==> AllMarked(mask, 8 * q + r)
  {
    EqualsLowRange(mask[q], r);
    forall j: nat | j < 8
      ensures Bit8(mask[q], j) <==> MaskBit(mask, 8 * q + j)
    {
    }
    if HasBits(mask[q], 0, r) {
      forall k: nat | 8 * q <= k < 8 * q + r
        ensures MaskBit(mask, k)
      {
        assert Bit8(mask[q], k - 8 * q);
      }
    }
    if AllMarked(mask, 8 * q + r) {
      forall j: nat | j < 8
        ensures Bit8(mask[q], j) <==> 0 <= j < r
      {
        assert MaskBit(mask, 8 * q + j) <==> j < r;
      }
    }
  }

  lemma ZeroMask(mask: seq<byte>, msgLen: nat)
    requires msgLen > 0 && |mask| == (msgLen + 7) / 8 && forall i :: 0 <= i < |mask| ==> mask[i] == 0
    ensures forall k: nat :: k < 8 * |mask| ==> !MaskBit(mask, k)
    ensures MaskShape(mask, msgLen) && !AllMarked(mask, msgLen)
  {
    forall k: nat | k < 8 * |mask|
      ensures !MaskBit(mask, k)
    {
      BitOfZero(k % 8);
    }
    assert !MaskBit(mask, 0);
  }

  /** What a partly received message stands for: its identity and the body bytes received. */
  datatype PartialMessage = PartialMessage(typ: byte, seqNum: nat, msgLen: nat, got: map<nat, byte>) {
    ghost predicate Complete() {
      forall k: nat :: k < msgLen ==> k in got
    }
  }

  /** The header of the reassembled message: a single fragment covering the whole body. */
  function WholeHeader(typ: byte, msgLen: nat, seqNum: nat): FragmentHeader {
    FragmentHeader(typ, msgLen, seqNum, 0, msgLen)
  }

  /** The entries that a fragment `body` at offset `off` contributes. */
  function Chunk(off: nat, body: seq<byte>): map<nat, byte> {
    map k: nat {:trigger body[k - off]} | off <= k < off + |body| :: body[k - off]
  }

  class HmFragment {
    const typ: byte
    const seqNum: nat
    const msgLen: nat
    const data: array<byte>
    var reassembly: array?<byte>

    ghost function Repr(): set<object>
      reads this
    {
      {this, data} + if reassembly == null then {} else {reassembly}
    }

    ghost predicate Valid()
      reads this, data, reassembly
    {
      && WholeHeader(typ, msgLen, seqNum).Fits()
      && data.Length == HM_HEADER_LENGTH + msgLen
      && data[..HM_HEADER_LENGTH] == HeaderBytes(WholeHeader(typ, msgLen, seqNum))
      && (reassembly != null ==>
            && reassembly != data
            && MaskShape(reassembly[..], msgLen)
            && !AllMarked(reassembly[..], msgLen))
    }

    /** Body byte k has been received. */
    ghost predicate Covered(k: nat)
      requires Valid() && k < msgLen
      reads this, data, reassembly
    {
      reassembly == null || MaskBit(reassembly[..], k)
    }

    ghost function Body(): (b: seq<byte>)
      requires Valid()
      reads this, data, reassembly
      ensures |b| == msgLen
    {
      data[HM_HEADER_LENGTH..]
    }

    ghost function View(): PartialMessage
      requires Valid()
      reads this, data, reassembly
    {
      PartialMessage(typ, seqNum, msgLen, map k: nat | k < msgLen && Covered(k) :: Body()[k])
    }

    /** The mask is kept exactly while some byte is missing. */
    lemma MaskIffPending()
      requires Valid()
      ensures reassembly == null <==> View().Complete()
      ensures reassembly == null <==> forall k: nat :: k < msgLen ==> Covered(k)
    {
      if reassembly != null {
        var k: nat :| k < msgLen && !MaskBit(reassembly[..], k);
        assert !Covered(k) && k !in View().got;
      }
    }

    /** dtls1_hm_fragment_new: the header is filled in, the body is left as allocated. */
    constructor (hdr: FragmentHeader)
      requires hdr.Fits()
      ensures Valid() && fresh(Repr())
      ensures View() == PartialMessage(hdr.typ, hdr.seqNum, hdr.msgLen, map[])
      ensures reassembly == null <==> hdr.msgLen == 0
    {
      typ, seqNum, msgLen := hdr.typ, hdr.seqNum, hdr.msgLen;
      var hb := HeaderBytes(WholeHeader(hdr.typ, hdr.msgLen, hdr.seqNum));
      var buf := new byte[HM_HEADER_LENGTH + hdr.msgLen];
      forall i | 0 <= i < HM_HEADER_LENGTH {
        buf[i] := hb[i];
      }
      data := buf;
      reassembly := null;
      new;
      assert data[..HM_HEADER_LENGTH] == hb;
      if msgLen > 0 {
        var mask := new byte[(msgLen + 7) / 8](_ => 0);
        reassembly := mask;
        ZeroMask(reassembly[..], msgLen);
      }
    }

    /** Copies a fragment body into place. Bytes received before may be overwritten. */
    method Store(off: nat, body: seq<byte>)
      requires Valid() && off + |body| <= msgLen
      modifies data
      ensures Valid()
      ensures Body() == old(Body()[..off]) + body + old(Body()[off + |body|..])
      ensures reassembly != null ==> reassembly[..] == old(reassembly[..])
    {
      ghost var before := data[..];
      forall i | 0 <= i < |body| {
        data[HM_HEADER_LENGTH + off + i] := body[i];
      }
      assert data[..HM_HEADER_LENGTH] == before[..HM_HEADER_LENGTH];
      assert reassembly != null ==> reassembly[..] == old(reassembly[..]);
    }

    /** dtls1_hm_fragment_mark: marks [start, end) as received, and drops the mask exactly when
        every byte of the message has been. */
    method Mark(start: nat, end: nat)
      requires Valid() && reassembly != null && start <= end <= msgLen
      modifies this`reassembly, reassembly
      ensures Valid()
      ensures reassembly == null || reassembly == old(reassembly)
      ensures forall k: nat :: k < msgLen ==> (Covered(k) <==> old(Covered(k)) || start <= k < end)
      ensures reassembly == null <==> forall k: nat :: k < msgLen ==> Covered(k)
      ensures Body() == old(Body())
    {
      if start == end {
        MaskIffPending();
        return;
      }
      SetRange(reassembly, start, end);
      var full := IsFull();
      if full {
        reassembly := null;
      } else {
        MaskIffPending();
      }
    }

    /** The mask update of dtls1_hm_fragment_mark. */
    static method SetRange(mask: array<byte>, start: nat, end: nat)
      requires start < end <= 8 * mask.Length
      modifies mask
      ensures Marked(old(mask[..]), mask[..], start, end)
    {
      ghost var before := mask[..];
      if start / 8 == end / 8 {
        MarkByte(before, mask[..], start, start, end, start / 8, OrRange(mask[start / 8], start % 8, end % 8));
        mask[start / 8] := OrRange(mask[start / 8], start % 8, end % 8);
      } else {
        var first := start / 8;
        MarkByte(before, mask[..], start, start, 8 * first + 8, first, OrRange(mask[first], start % 8, 8));
        mask[first] := OrRange(mask[first], start % 8, 8);
        FullByte(0xff);
        for i := first + 1 to end / 8
          invariant Marked(before, mask[..], start, 8 * i)
        {
          MarkByte(before, mask[..], start, 8 * i, 8 * i + 8, i, 0xff);
          mask[i] := 0xff;
        }
        if end % 8 != 0 {
          var last := end / 8;
          MarkByte(before, mask[..], start, 8 * last, end, last, OrRange(mask[last], 0, end % 8));
          mask[last] := OrRange(mask[last], 0, end % 8);
        }
      }
    }

    /** The completeness test of dtls1_hm_fragment_mark. */
    method IsFull() returns (full: bool)
      requires reassembly != null && MaskShape(reassembly[..], msgLen)
      ensures full <==> AllMarked(reassembly[..], msgLen)
    {
      for i := 0 to msgLen / 8
        invariant AllMarked(reassembly[..], 8 * i)
      {
        FullPrefix(reassembly[..], i);
        if reassembly[i] != 0xff {
          return false;
        }
      }
      if msgLen % 8 != 0 {
        FullTail(reassembly[..], msgLen / 8, msgLen % 8);
        if reassembly[msgLen / 8] != BitRange(0, msgLen % 8) {
          return false;
        }
      }
      return true;
    }

    /** One fragment of a message under assembly: copy, then mark. The bytes received become the
        old ones overridden by the fragment's. */
    method Receive(off: nat, body: seq<byte>)
      requires Valid() && reassembly != null && off + |body| <= msgLen
      modifies this`reassembly, reassembly, data
      ensures Valid()
      ensures reassembly == null || reassembly == old(reassembly)
      ensures View() == old(View()).(got := old(View()).got + Chunk(off, body))
      ensures reassembly == null <==> View().Complete()
    {
      ghost var before := View().got;
      Store(off, body);
      ghost var merged := Body();
      assert forall k :: k in before && !(off <= k < off + |body|) ==> merged[k] == before[k];
      assert forall k :: 0 <= k < |body| ==> merged[off + k] == body[k];
      Mark(off, off + |body|);
      MaskIffPending();
      GotMerged(before, merged, off, body);
    }

    /** Bytes covered before or by the fragment, with the contents `merged`, are the old ones and the
        fragment's over them. */
    lemma GotMerged(before: map<nat, byte>, merged: seq<byte>, off: nat, body: seq<byte>)
      requires Valid() && Body() == merged && off + |body| <= msgLen
      requires forall k: nat :: k < msgLen ==> (Covered(k) <==> k in before || off <= k < off + |body|)
      requires forall k :: k in before ==> k < msgLen
      requires forall k :: k in before && !(off <= k < off + |body|) ==> merged[k] == before[k]
      requires forall k :: 0 <= k < |body| ==> merged[off + k] == body[k]
      ensures View().got == before + Chunk(off, body)
    {
      forall k: nat | off <= k < off + |body|
        ensures merged[k] == body[k - off]
      {
        assert merged[off + (k - off)] == body[k - off];
      }
    }
  }
}
