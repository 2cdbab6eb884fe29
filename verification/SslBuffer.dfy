/** SSLBuffer of ssl_buffer.cc: a byte queue in one allocation, with 16-bit bookkeeping. */
module SslBuffer {
  import opened Words

  const SSL3_ALIGN_PAYLOAD := 8
  const U16_MAX := 0xffff

  /** Where in a new allocation the contents start, so that what follows the header is aligned. */
  function AlignedOffset(headerLen: nat, address: nat): (r: nat)
    ensures r < SSL3_ALIGN_PAYLOAD && (r + headerLen + address) % SSL3_ALIGN_PAYLOAD == 0
  {
    (-((headerLen + address) as int)) % SSL3_ALIGN_PAYLOAD
  }

  /** `offset_ += (uint16_t)len`. */
  function Consumed(offset: nat, len: nat): (r: nat)
    ensures r <= U16_MAX && r <= offset + len
  {
    (offset + len % 0x1_0000) % 0x1_0000
  }

  /** What a buffer over the memory mem holds once len of its size bytes have been consumed. */
  function ContentsAfter(mem: seq<byte>, offset: nat, size: nat, len: nat): (r: seq<byte>)
    requires len <= size && offset + size <= |mem|
    ensures |r| == size - len
  {
    var o := Consumed(offset, len);
    mem[o..o + (size - len)]
  }

  /** With capacity cap, whatever the alignment, the contents and the amounts consumed, no byte is lost
      or repeated. */
  ghost predicate NeverLoses(cap: nat) {
    forall mem: seq<byte>, offset: nat, size: nat, len: nat ::
      offset < SSL3_ALIGN_PAYLOAD && len <= size <= cap && |mem| == cap + SSL3_ALIGN_PAYLOAD - 1 ==>
        ContentsAfter(mem, offset, size, len) == mem[offset..offset + size][len..]
  }

  /** The largest capacity at which the 16-bit offset cannot wrap before the last byte is consumed. */
  const MAX_SAFE_CAP := U16_MAX - (SSL3_ALIGN_PAYLOAD - 2)

  /** EnsureCap refuses capacities above 16 bits; of those it grants, a buffer keeps its contents
      exactly up to this one. */
  lemma NeverLosesIff(cap: nat)
    requires cap <= U16_MAX
    ensures NeverLoses(cap) <==> cap <= MAX_SAFE_CAP
  {
    if cap > MAX_SAFE_CAP {
      var mem := seq(cap + 7, i => if i == 0 then 1 else 0);
      var len := 0x1_0000 - 7;
      assert ContentsAfter(mem, 7, cap, len)[0] == 1;
      assert mem[7..7 + cap][len..][0] == 0;
    } else {
      forall mem: seq<byte>, offset: nat, size: nat, len: nat
        | offset < SSL3_ALIGN_PAYLOAD && len <= size <= cap && |mem| == cap + SSL3_ALIGN_PAYLOAD - 1
        ensures ContentsAfter(mem, offset, size, len) == mem[offset..offset + size][len..]
      {
        if len < size {
          ConsumedExact(offset, len);
        }
      }
    }
  }

  lemma ConsumedExact(offset: nat, len: nat)
    requires offset + len <= U16_MAX
    ensures Consumed(offset, len) == offset + len
  {
  }

  /** A capacity that EnsureCap refuses, or one at which nothing is lost. */
  predicate CapSafe(cap: nat) {
    cap > U16_MAX || cap <= MAX_SAFE_CAP
  }

  /** memcpy. */
  method CopyInto(a: array<byte>, at: nat, bytes: seq<byte>)
    requires at + |bytes| <= a.Length
    modifies a
    ensures a[..at] == old(a[..at]) && a[at..at + |bytes|] == bytes
  {
    forall i | 0 <= i < |bytes| {
      a[at + i] := bytes[i];
    }
  }

  lemma SliceSplits(s: seq<byte>, i: nat, j: nat, k: nat)
    requires i <= j <= k <= |s|
    ensures s[i..k] == s[i..j] + s[j..k] && s[i..j] == s[..j][i..]
  {
  }

  class Buffer {
    var buf: array?<byte>
    var offset: nat
    var size: nat
    var cap: nat

    ghost predicate Valid()
      reads this, buf
    {
      if buf == null then offset == size == cap == 0
      else size <= cap <= U16_MAX && offset <= U16_MAX && offset + cap <= buf.Length
    }

    /** However the contents are consumed, the offset does not wrap before the last byte is. */
    predicate Sound()
      reads this
    {
      offset + cap <= U16_MAX + 1
    }

    ghost function Contents(): seq<byte>
      requires Valid()
      reads this, buf
    {
      if buf == null then [] else buf[offset..offset + size]
    }

    ghost function Memory(): set<object>
      reads this
    {
      if buf == null then {} else {buf}
    }

    constructor ()
      ensures Valid() && Sound() && Contents() == [] && buf == null
    {
      buf, offset, size, cap := null, 0, 0, 0;
    }

    method Clear()
      modifies this
      ensures Valid() && Sound() && Contents() == [] && buf == null
    {
      buf, offset, size, cap := null, 0, 0, 0;
    }

    /** `address` is where malloc places the new allocation, if it succeeds. */
    method EnsureCap(headerLen: nat, newCap: nat, mallocOk: bool, address: nat) returns (ok: bool)
      requires Valid()
      modifies this
      ensures Valid() && Contents() == old(Contents()) && size == old(size)
      ensures old(Sound()) && CapSafe(newCap) ==> Sound()
      ensures ok <==> newCap <= U16_MAX && (old(cap) >= newCap || mallocOk)
      ensures ok ==> cap >= newCap
      ensures fresh(Memory() - old(Memory()))
      ensures ok && old(cap) < newCap ==> (offset + headerLen + address) % SSL3_ALIGN_PAYLOAD == 0
    {
      if newCap > U16_MAX {
        return false;
      }
      if cap >= newCap {
        return true;
      }
      if !mallocOk {
        return false;
      }
      var newBuf := new byte[newCap + SSL3_ALIGN_PAYLOAD - 1];
      var newOffset := AlignedOffset(headerLen, address);
      ghost var before := Contents();
      if buf != null {
        CopyInto(newBuf, newOffset, buf[offset..offset + size]);
      }
      buf, offset, cap := newBuf, newOffset, newCap;
      assert Contents() == before;
      return true;
    }

    /** Bytes copied into remaining(), and DidWrite, which aborts when there is no room. */
    method Write(bytes: seq<byte>)
      requires Valid() && |bytes| <= cap - size
      modifies this, buf
      ensures Valid() && Contents() == old(Contents()) + bytes
      ensures buf == old(buf) && offset == old(offset) && size == old(size) + |bytes| && cap == old(cap)
    {
      if buf != null {
        SliceSplits(buf[..], offset, offset + size, offset + size + |bytes|);
        CopyInto(buf, offset + size, bytes);
        SliceSplits(buf[..], offset, offset + size, offset + size + |bytes|);
        size := size + |bytes|;
      }
    }

    /** Bytes leave at the front. When the 16-bit offset wraps while bytes are left, what is left is not
        what followed. */
    method Consume(len: nat)
      requires Valid() && len <= size
      modifies this
      ensures Valid() && buf == old(buf) && offset == Consumed(old(offset), len)
      ensures size == old(size) - len && cap == old(cap) - len
      ensures old(offset) + len <= U16_MAX || len == old(size) ==> Contents() == old(Contents())[len..]
      ensures old(Sound()) ==> Sound() && Contents() == old(Contents())[len..]
    {
      hide Consumed;
      if offset + len <= U16_MAX {
        ConsumedExact(offset, len);
      }
      offset := Consumed(offset, len);
      size := size - len;
      cap := cap - len;
    }

    /** The memory goes exactly when nothing is left in it. */
    method DiscardConsumed()
      requires Valid()
      modifies this
      ensures Valid() && Contents() == old(Contents())
      ensures old(size) == 0 ==> buf == null
      ensures old(size) != 0 ==> buf == old(buf) && offset == old(offset) && size == old(size) && cap == old(cap)
    {
      if size == 0 {
        Clear();
      }
    }
  }
}
