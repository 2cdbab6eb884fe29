/** pb_encode.c: an output stream over a byte buffer, or one that only counts, and the encoders
    that write a message to it. */
module PbEncoder {
  import opened Options
  import opened Words
  import opened PbWire
  import opened PbMessage
  import opened PbIter

  // ---------- messages in memory ----------

  predicate FitsSize(e: Option<seq<byte>>) {
    e.Some? ==> |e.value| < U64
  }

  /** A fixed-width field holds a word of its width, and no length wraps a size_t, at any depth. */
  predicate InMemoryValue(f: Field, v: Value)
    decreases f, 0
  {
    && (f.ltype.Fixed32? ==> v.Num? && UnsignedFits(v.n, 4))
    && (f.ltype.Fixed64? ==> v.Num? && UnsignedFits(v.n, 8))
    && (v.Blob? ==> |v.bytes| < U64)
    && (f.ltype.Submessage? && f.ptr.Msg? && v.Sub? ==>
          FitsSize(EncodeMessage(f.ptr.desc, v.slots)) && InMemory(f.ptr.desc, v.slots))
  }

  predicate InMemorySlot(f: Field, slot: Slot)
    decreases f, 1
  {
    match slot
    case One(v) => InMemoryValue(f, v)
    case Opt(_, v) => InMemoryValue(f, v)
    case Many(items) =>
      && (forall k :: 0 <= k < |items| ==> InMemoryValue(f, items[k]))
      && (Packable(f.ltype) ==> FitsSize(EncodeItems(f, items)))
  }

  predicate InMemory(d: Desc, slots: seq<Slot>)
    decreases d
  {
    && |slots| == |d.fields|
    && (forall i :: 0 <= i < |slots| ==> d.fields[i].tag < U32 && InMemorySlot(d.fields[i], slots[i]))
  }

  // ---------- sizes of arrays ----------

  /** encode_array computes the size of an array of fixed-width items without encoding them. */
  lemma {:induction false} FixedItemsSize(f: Field, items: seq<Value>)
    requires f.ltype.Fixed32? || f.ltype.Fixed64?
    requires forall k :: 0 <= k < |items| ==> InMemoryValue(f, items[k])
    ensures EncodeItems(f, items).Some?
    ensures |EncodeItems(f, items).value| == (if f.ltype.Fixed32? then 4 else 8) * |items|
    decreases |items|
  {
    hide FixedBytes;
    if items != [] {
      assert InMemoryValue(f, items[0]);
      FixedItemsSize(f, items[1..]);
    }
  }

  lemma ItemsStep(f: Field, items: seq<Value>, i: nat)
    requires i < |items|
    ensures EncodeItems(f, items[i..]) == Append(EncodeValue(f, items[i]), EncodeItems(f, items[i + 1..]))
    ensures EncodeUnpacked(f, items[i..]) == Append(EncodeTagged(f, items[i]), EncodeUnpacked(f, items[i + 1..]))
  {
    hide EncodeValue, EncodeTagged;
    assert items[i..][0] == items[i] && items[i..][1..] == items[i + 1..];
  }

  // ---------- varints ----------

  /** pb_encode_varint's loop, whose buffer of ten bytes is enough for every 64-bit value. */
  method VarintToBuffer(value: nat) returns (buffer: array<byte>, n: nat)
    requires 0x80 <= value < U64
    ensures fresh(buffer) && n <= buffer.Length == 10 && buffer[..n] == VarintBytes(value)
  {
    hide VarintBytes;
    buffer := new byte[10];
    VarintAtMostTenBytes(value);
    var v := value;
    n := 0;
    while v != 0
      invariant n + (if v == 0 then 0 else |VarintBytes(v)|) == |VarintBytes(value)| <= 10
      invariant v == 0 ==> n > 0 && buffer[..n - 1] + [buffer[n - 1] % 0x80] == VarintBytes(value)
      invariant v != 0 ==> buffer[..n] + VarintBytes(v) == VarintBytes(value)
      invariant v == 0 ==> buffer[n - 1] >= 0x80
      decreases v
    {
      VarintSteps(v);
      ghost var before := buffer[..n];
      buffer[n] := v % 0x80 + 0x80;
      v := v / 0x80;
      n := n + 1;
      assert buffer[..n] == before + [buffer[n - 1]];
    }
    buffer[n - 1] := buffer[n - 1] % 0x80;
    assert buffer[..n] == buffer[..n - 1] + [buffer[n - 1]];
  }

  // ---------- the stream ----------

  /** A stream at one moment: the room left, the bytes written, the buffer up to the write position,
      and the buffer past what this stream may fill. */
  datatype Snap = Snap(sizing: bool, room: nat, written: nat, out: seq<byte>, beyond: seq<byte>)

  /** The result of writing what is to be e between s and t: success exactly when e is defined and
      fits, and then exactly e is appended. Success or not, what was written before stays and
      nothing past the stream's end changes. */
  ghost predicate Wrote(s: Snap, t: Snap, e: Option<seq<byte>>, ok: bool) {
    && t.sizing == s.sizing && t.beyond == s.beyond && s.out <= t.out
    && (!s.sizing ==> |t.out| - |s.out| == t.written - s.written == s.room - t.room)
    && (ok <==> e.Some? && (s.sizing || |e.value| <= s.room))
    && (ok ==> t.written == s.written + |e.value|)
    && (ok && !s.sizing ==> t.out == s.out + e.value)
  }

  lemma ThenWrote(s: Snap, t: Snap, u: Snap, a: Option<seq<byte>>, b: Option<seq<byte>>, ok: bool)
    requires Wrote(s, t, a, true) && Wrote(t, u, b, ok)
    ensures Wrote(s, u, Append(a, b), ok)
  {
    if ok && !s.sizing {
      assert s.out + a.value + b.value == s.out + (a.value + b.value);
    }
    assert u.out[..|t.out|][..|s.out|] == u.out[..|s.out|];
  }

  lemma FailedWrote(s: Snap, t: Snap, a: Option<seq<byte>>, b: Option<seq<byte>>)
    requires Wrote(s, t, a, false)
    ensures Wrote(s, t, Append(a, b), false)
  {
  }

  lemma AppendAssociates(a: Option<seq<byte>>, b: Option<seq<byte>>, c: Option<seq<byte>>)
    ensures Append(Append(a, b), c) == Append(a, Append(b, c))
  {
    if a.Some? && b.Some? && c.Some? {
      assert a.value + b.value + c.value == a.value + (b.value + c.value);
    }
  }

  lemma NothingWrote(s: Snap)
    ensures Wrote(s, s, Some([]), true) && Wrote(s, s, None, false)
  {
  }

  class OStream {
    /** PB_OSTREAM_SIZING: count, write nothing. */
    const sizing: bool
    const buffer: array<byte>
    const maxSize: nat
    /** Where `state` points in the buffer. */
    var pos: nat
    var bytesWritten: nat

    ghost predicate Valid()
      reads this
    {
      !sizing ==> bytesWritten <= maxSize && pos + (maxSize - bytesWritten) <= buffer.Length
    }

    ghost function Now(): Snap
      requires Valid()
      reads this, buffer
    {
      if sizing then Snap(true, 0, bytesWritten, [], [])
      else Snap(false, maxSize - bytesWritten, bytesWritten, buffer[..pos], buffer[pos + (maxSize - bytesWritten)..])
    }

    /** pb_ostream_from_buffer. */
    constructor (buffer: array<byte>, start: nat, maxSize: nat)
      requires start + maxSize <= buffer.Length
      ensures Valid() && !sizing && this.buffer == buffer && pos == start && this.maxSize == maxSize && bytesWritten == 0
    {
      sizing := false;
      this.buffer := buffer;
      this.maxSize := maxSize;
      pos, bytesWritten := start, 0;
    }

    constructor Sizing()
      ensures Valid() && sizing && bytesWritten == 0 && fresh(buffer)
    {
      sizing := true;
      buffer := new byte[0];
      maxSize := 0;
      pos, bytesWritten := 0, 0;
    }

    /** pb_write and buf_write. */
    method Write(b: seq<byte>) returns (ok: bool)
      requires Valid()
      modifies this, buffer
      ensures Valid() && Wrote(old(Now()), Now(), Some(b), ok)
    {
      if !sizing {
        if bytesWritten + |b| > maxSize {
          return false;
        }
        ghost var limit := pos + (maxSize - bytesWritten);
        var i := 0;
        while i < |b|
          invariant 0 <= i <= |b| && pos == old(pos) && bytesWritten == old(bytesWritten)
          invariant buffer[..pos + i] == old(buffer[..pos]) + b[..i]
          invariant buffer[limit..] == old(buffer[limit..])
        {
          buffer[pos + i] := b[i];
          i := i + 1;
        }
        pos := pos + |b|;
      }
      bytesWritten := bytesWritten + |b|;
      return true;
    }

    /** pb_write without data, which only a counting stream is given. */
    method Count(n: nat)
      requires sizing
      modifies this
      ensures bytesWritten == old(bytesWritten) + n
    {
      bytesWritten := bytesWritten + n;
    }

    /** pb_encode_varint. */
    method EncodeVarint(value: nat) returns (ok: bool)
      requires Valid() && value < U64
      modifies this, buffer
      ensures Valid() && Wrote(old(Now()), Now(), Some(VarintBytes(value)), ok)
    {
      if value <= 0x7f {
        assert VarintBytes(value) == [value];
        ok := Write([value]);
        return;
      }
      var bytes, n := VarintToBuffer(value);
      ok := Write(bytes[..n]);
    }

    /** pb_encode_tag. */
    method EncodeTag(wire: nat, tag: nat) returns (ok: bool)
      requires Valid() && tag < U32 && wire < 8
      modifies this, buffer
      ensures Valid() && Wrote(old(Now()), Now(), Some(KeyBytes(tag, wire)), ok)
    {
      ok := EncodeVarint(tag * 8 + wire);
    }

    /** pb_encode_string. */
    method EncodeString(b: seq<byte>) returns (ok: bool)
      requires Valid() && |b| < U64
      modifies this, buffer
      ensures Valid() && Wrote(old(Now()), Now(), Some(Delimited(b)), ok)
    {
      hide VarintBytes, Wrote;
      ghost var t0 := Now();
      ok := EncodeVarint(|b|);
      ghost var t1 := Now();
      if !ok {
        FailedWrote(t0, t1, Some(VarintBytes(|b|)), Some(b));
        return;
      }
      ok := Write(b);
      ThenWrote(t0, t1, Now(), Some(VarintBytes(|b|)), Some(b), ok);
    }

    /** The strnlen loop of pb_enc_string. */
    static method StringLength(b: seq<byte>, max: nat) returns (size: nat)
      ensures size <= |b| && b[..size] == UpToNul(b, max)
    {
      hide UpToNul;
      size := 0;
      while size < max && size < |b| && b[size] != 0
        invariant size <= max && size <= |b|
        invariant UpToNul(b, max) == b[..size] + UpToNul(b[size..], max - size)
        decreases |b| - size
      {
        UpToNulNext(b, max, size);
        size := size + 1;
      }
      UpToNulStep(b[size..], max - size);
    }

    /** The field encoders of every type but submessage. */
    method EncodeScalarValue(f: Field, v: Value) returns (ok: bool)
      requires Valid() && InMemoryValue(f, v) && !f.ltype.Submessage?
      modifies this, buffer
      ensures Valid() && Wrote(old(Now()), Now(), EncodeScalar(f, v), ok)
    {
      hide VarintBytes, FixedBytes, UpToNul, ZigZag, Wrote;
      NothingWrote(Now());
      match (f.ltype, v)
      case (Varint, Num(n)) =>
        if !SignedFits(n, f.dataSize) {
          return false;
        }
        ok := EncodeVarint(if n < 0 then n + U64 else n);
      case (UVarint, Num(n)) =>
        if !UnsignedFits(n, f.dataSize) {
          return false;
        }
        ok := EncodeVarint(n);
      case (SVarint, Num(n)) =>
        if !SignedFits(n, f.dataSize) {
          return false;
        }
        ZigZagRoundTrip(n);
        ok := EncodeVarint(ZigZag(n));
      case (Fixed32, Num(n)) => ok := Write(FixedBytes(n, 4));
      case (Fixed64, Num(n)) => ok := Write(FixedBytes(n, 8));
      case (Bytes, Blob(b)) =>
        if |b| + 4 > f.dataSize {
          return false;
        }
        ok := EncodeString(b);
      case (String, Blob(b)) =>
        if |b| > f.dataSize {
          return false;
        }
        var size := StringLength(b, f.dataSize);
        ok := EncodeString(b[..size]);
      case (FixedLengthBytes, Blob(b)) =>
        if |b| != f.dataSize {
          return false;
        }
        ok := EncodeString(b);
      case (_, _) => return false;
    }

    /** A field's encoder. */
    method EncodeFieldValue(f: Field, v: Value) returns (ok: bool)
      requires Valid() && InMemoryValue(f, v)
      modifies this, buffer
      ensures Valid() && Wrote(old(Now()), Now(), EncodeValue(f, v), ok)
      decreases f, 0
    {
      hide EncodeScalar, EncodeMessage, InMemory, Wrote;
      if !f.ltype.Submessage? {
        ok := EncodeScalarValue(f, v);
      } else if !f.ptr.Msg? || !v.Sub? || |v.slots| != |f.ptr.desc.fields| {
        NothingWrote(Now());
        MisfitMessage(f, v);
        ok := false;
      } else {
        ok := EncodeSubmessage(f.ptr.desc, v.slots);
      }
    }

    /** func for each item in turn. */
    method EncodeEach(f: Field, items: seq<Value>) returns (ok: bool)
      requires Valid() && forall k :: 0 <= k < |items| ==> InMemoryValue(f, items[k])
      modifies this, buffer
      ensures Valid() && Wrote(old(Now()), Now(), EncodeItems(f, items), ok)
      decreases f, 1
    {
      hide EncodeValue, InMemoryValue, Wrote, Append;
      NothingWrote(Now());
      ghost var done := Some([]);
      var i := 0;
      assert items[0..] == items;
      AppendNothing(EncodeItems(f, items));
      while i < |items|
        invariant 0 <= i <= |items| && Valid()
        invariant Wrote(old(Now()), Now(), done, true)
        invariant EncodeItems(f, items) == Append(done, EncodeItems(f, items[i..]))
      {
        ghost var before := Now();
        ItemsStep(f, items, i);
        ok := EncodeFieldValue(f, items[i]);
        ghost var e := EncodeValue(f, items[i]);
        AppendAssociates(done, e, EncodeItems(f, items[i + 1..]));
        ThenWrote(old(Now()), before, Now(), done, e, ok);
        done := Append(done, e);
        if !ok {
          FailedWrote(old(Now()), Now(), done, EncodeItems(f, items[i + 1..]));
          return false;
        }
        i := i + 1;
      }
      assert EncodeItems(f, items[i..]) == Some([]);
      AppendNothing(done);
      return true;
    }

    /** The writing half of pb_encode_submessage: the message again, into a stream that may hold
        exactly the size found. That this pass writes another size is an error which cannot occur. */
    method EncodeAgain(d: Desc, slots: seq<Slot>, size: nat) returns (ok: bool)
      requires Valid() && InMemory(d, slots) && !sizing
      requires EncodeMessage(d, slots).Some? && |EncodeMessage(d, slots).value| == size
      modifies this, buffer
      ensures Valid() && Wrote(old(Now()), Now(), EncodeMessage(d, slots), ok)
      decreases d, |slots| + 2
    {
      hide EncodeMessage, InMemory, Wrote;
      ghost var t, e := Now(), EncodeMessage(d, slots);
      if bytesWritten + size > maxSize {
        NoRoom(t, e);
        return false;
      }
      ghost var limit := pos + (maxSize - bytesWritten);
      var sub := new OStream(buffer, pos, size);
      ghost var s := sub.Now();
      SliceOfSlice(buffer[..], pos + size, limit - pos - size);
      ok := sub.Encode(d, slots);
      ghost var u := sub.Now();
      SubstreamWrote(s, u, e.value, ok);
      bytesWritten := bytesWritten + sub.bytesWritten;
      pos := sub.pos;
      assert pos == |t.out| + size;
      assert sub.bytesWritten == size;
      ok := ok && sub.bytesWritten == size;
      SliceOfSlice(buffer[..], pos, limit - pos);
      assert buffer[..][pos..] == u.beyond;
      ParentWrote(t, s, u, Now(), e.value);
    }

    /** pb_encode_submessage: the size from a counting stream, the length prefix, the message. */
    method EncodeSubmessage(d: Desc, slots: seq<Slot>) returns (ok: bool)
      requires Valid() && InMemory(d, slots) && FitsSize(EncodeMessage(d, slots))
      modifies this, buffer
      ensures Valid()
      ensures Wrote(old(Now()), Now(), Prefixed(EncodeMessage(d, slots)), ok)
      decreases d, |slots| + 3
    {
      hide EncodeMessage, InMemory, VarintBytes, Wrote;
      ghost var t0, e := Now(), EncodeMessage(d, slots);
      NothingWrote(t0);
      var counter := new OStream.Sizing();
      ghost var c0 := counter.Now();
      ok := counter.Encode(d, slots);
      CounterWrote(c0, counter.Now(), e, ok);
      if !ok {
        return;
      }
      var size := counter.bytesWritten;
      ok := EncodeVarint(size);
      ghost var t1, prefix := Now(), Some(VarintBytes(size));
      if !ok {
        FailedWrote(t0, t1, prefix, e);
      } else if sizing {
        Count(size);
        CountWrote(t1, Now(), e);
        ThenWrote(t0, t1, Now(), prefix, e, true);
      } else {
        ok := EncodeAgain(d, slots, size);
        ThenWrote(t0, t1, Now(), prefix, e, ok);
      }
      PrefixSplits(e);
    }

    /** encode_array. */
    method EncodeItemArray(f: Field, items: seq<Value>) returns (ok: bool)
      requires Valid() && f.tag < U32 && InMemorySlot(f, Many(items))
      modifies this, buffer
      ensures Valid() && Wrote(old(Now()), Now(), EncodeArray(f, items), ok)
      decreases f, 3
    {
      hide EncodeItems, EncodeUnpacked, InMemoryValue, KeyBytes, VarintBytes, Wrote, Append;
      NothingWrote(Now());
      if items == [] {
        return true;
      }
      if |items| > f.arraySize {
        return false;
      }
      if !Packable(f.ltype) {
        ok := EncodeUnpackedItems(f, items);
        return;
      }
      ghost var t0, e := Now(), EncodeItems(f, items);
      ghost var key := KeyBytes(f.tag, 2);
      ok := EncodeTag(2, f.tag);
      ghost var t1 := Now();
      if !ok {
        FailedWrote(t0, t1, Some(key), Prefixed(e));
        PackedSplits(f, items);
        return;
      }
      ok := EncodePackedBody(f, items);
      ThenWrote(t0, t1, Now(), Some(key), Prefixed(e), ok);
      PackedSplits(f, items);
    }

    /** The rest of a packed array: its size, then its items. */
    method EncodePackedBody(f: Field, items: seq<Value>) returns (ok: bool)
      requires Valid() && Packable(f.ltype) && InMemorySlot(f, Many(items))
      modifies this, buffer
      ensures Valid() && Wrote(old(Now()), Now(), Prefixed(EncodeItems(f, items)), ok)
      decreases f, 2
    {
      hide EncodeItems, InMemoryValue, VarintBytes, Wrote, Append;
      NothingWrote(Now());
      ghost var t0, e := Now(), EncodeItems(f, items);
      var size;
      if f.ltype.Fixed32? {
        FixedItemsSize(f, items);
        size := 4 * |items|;
      } else if f.ltype.Fixed64? {
        FixedItemsSize(f, items);
        size := 8 * |items|;
      } else {
        var counter := new OStream.Sizing();
        ghost var c0 := counter.Now();
        ok := counter.EncodeEach(f, items);
        CounterWrote(c0, counter.Now(), e, ok);
        if !ok {
          return;
        }
        size := counter.bytesWritten;
      }
      ok := EncodeVarint(size);
      ghost var t1, prefix := Now(), Some(VarintBytes(size));
      if !ok {
        FailedWrote(t0, t1, prefix, e);
      } else if sizing {
        Count(size);
        CountWrote(t1, Now(), e);
        ThenWrote(t0, t1, Now(), prefix, e, true);
      } else {
        ok := EncodeEach(f, items);
        ThenWrote(t0, t1, Now(), prefix, e, ok);
      }
      PrefixSplits(e);
    }

    method EncodeUnpackedItems(f: Field, items: seq<Value>) returns (ok: bool)
      requires Valid() && f.tag < U32 && forall k :: 0 <= k < |items| ==> InMemoryValue(f, items[k])
      modifies this, buffer
      ensures Valid() && Wrote(old(Now()), Now(), EncodeUnpacked(f, items), ok)
      decreases f, 2
    {
      hide EncodeTagged, InMemoryValue, Wrote, Append;
      NothingWrote(Now());
      ghost var done := Some([]);
      var i := 0;
      assert items[0..] == items;
      AppendNothing(EncodeUnpacked(f, items));
      while i < |items|
        invariant 0 <= i <= |items| && Valid()
        invariant Wrote(old(Now()), Now(), done, true)
        invariant EncodeUnpacked(f, items) == Append(done, EncodeUnpacked(f, items[i..]))
      {
        ghost var before, e := Now(), EncodeTagged(f, items[i]);
        ItemsStep(f, items, i);
        ok := EncodeTaggedValue(f, items[i]);
        AppendAssociates(done, e, EncodeUnpacked(f, items[i + 1..]));
        ThenWrote(old(Now()), before, Now(), done, e, ok);
        done := Append(done, e);
        if !ok {
          FailedWrote(old(Now()), Now(), done, EncodeUnpacked(f, items[i + 1..]));
          return false;
        }
        i := i + 1;
      }
      assert EncodeUnpacked(f, items[i..]) == Some([]);
      AppendNothing(done);
      return true;
    }

    /** pb_encode_tag_for_field and the field's encoder. */
    method EncodeTaggedValue(f: Field, v: Value) returns (ok: bool)
      requires Valid() && f.tag < U32 && InMemoryValue(f, v)
      modifies this, buffer
      ensures Valid() && Wrote(old(Now()), Now(), EncodeTagged(f, v), ok)
      decreases f, 1
    {
      hide EncodeValue, InMemoryValue, KeyBytes, Wrote, Append;
      ghost var t0, key := Now(), Some(KeyBytes(f.tag, WireType(f.ltype)));
      ok := EncodeTag(WireType(f.ltype), f.tag);
      if !ok {
        FailedWrote(t0, Now(), key, EncodeValue(f, v));
        return;
      }
      ghost var t1 := Now();
      ok := EncodeFieldValue(f, v);
      ThenWrote(t0, t1, Now(), key, EncodeValue(f, v), ok);
    }

    /** encode_basic_field. */
    method EncodeBasicField(f: Field, slot: Slot) returns (ok: bool)
      requires Valid() && f.tag < U32 && InMemorySlot(f, slot)
      modifies this, buffer
      ensures Valid() && Wrote(old(Now()), Now(), EncodeSlot(f, slot), ok)
      decreases f, 4
    {
      hide EncodeTagged, EncodeArray, InMemoryValue, Wrote, IsZero;
      NothingWrote(Now());
      match (f.htype, slot)
      case (Required, One(v)) => ok := EncodeTaggedValue(f, v);
      case (Singular, One(v)) =>
        if IsZero(f, v) {
          return true;
        }
        ok := EncodeTaggedValue(f, v);
      case (Optional, Opt(has, v)) =>
        if !has {
          return true;
        }
        ok := EncodeTaggedValue(f, v);
      case (Oneof(_), Opt(active, v)) =>
        if !active {
          return true;
        }
        ok := EncodeTaggedValue(f, v);
      case (Repeated, Many(items)) => ok := EncodeItemArray(f, items);
      case (_, _) => return false;
    }

    /** pb_encode. */
    method Encode(d: Desc, slots: seq<Slot>) returns (ok: bool)
      requires Valid() && InMemory(d, slots)
      modifies this, buffer
      ensures Valid() && Wrote(old(Now()), Now(), EncodeMessage(d, slots), ok)
      decreases d, |slots| + 1
    {
      hide EncodeSlot, InMemorySlot, Wrote, Append, FieldIter.Valid;
      NothingWrote(Now());
      var iter := new FieldIter(d);
      if d.fields == [] {
        return true;
      }
      ghost var done := Some([]);
      AppendNothing(EncodeFrom(d, slots, 0));
      var more := true;
      while more
        invariant iter.Valid() && iter.d == d && fresh(iter) && iter.pos < |slots| && Valid()
        invariant Wrote(old(Now()), Now(), done, true)
        invariant EncodeMessage(d, slots) == if more then Append(done, EncodeFrom(d, slots, iter.pos)) else done
        decreases if more then |slots| - iter.pos else 0
      {
        ghost var i, before := iter.pos, Now();
        ghost var e, rest := EncodeSlot(d.fields[i], slots[i]), EncodeFrom(d, slots, i + 1);
        ok := EncodeBasicField(d.fields[iter.pos], slots[iter.pos]);
        AppendAssociates(done, e, rest);
        ThenWrote(old(Now()), before, Now(), done, e, ok);
        done := Append(done, e);
        if !ok {
          FailedWrote(old(Now()), Now(), done, rest);
          return false;
        }
        more := iter.Next();
        AppendNothing(done);
      }
      return true;
    }

    /** pb_get_encoded_size. */
    static method GetEncodedSize(d: Desc, slots: seq<Slot>) returns (ok: bool, size: nat)
      requires InMemory(d, slots)
      ensures ok <==> EncodeMessage(d, slots).Some?
      ensures ok ==> size == |EncodeMessage(d, slots).value|
    {
      hide EncodeMessage, InMemory;
      var counter := new OStream.Sizing();
      ok := counter.Encode(d, slots);
      size := counter.bytesWritten;
    }
  }

  /** The two calls of the API in turn: a message goes into a buffer exactly when the buffer is as
      large as the size pb_get_encoded_size finds, and then takes exactly that many bytes. */
  method EncodeToBuffer(d: Desc, slots: seq<Slot>, buffer: array<byte>) returns (ok: bool, written: nat, size: nat)
    requires InMemory(d, slots)
    modifies buffer
    ensures ok <==> EncodeMessage(d, slots).Some? && size <= buffer.Length
    ensures EncodeMessage(d, slots).Some? ==> size == |EncodeMessage(d, slots).value|
    ensures ok ==> written == size && buffer[..size] == EncodeMessage(d, slots).value
  {
    hide EncodeMessage, InMemory;
    var sized;
    sized, size := OStream.GetEncodedSize(d, slots);
    var stream := new OStream(buffer, 0, buffer.Length);
    ok := stream.Encode(d, slots);
    written := stream.bytesWritten;
  }

  lemma AppendNothing(e: Option<seq<byte>>)
    ensures Append(Some([]), e) == e && Append(e, Some([])) == e
  {
    if e.Some? {
      assert [] + e.value == e.value && e.value + [] == e.value;
    }
  }

  lemma MisfitMessage(f: Field, v: Value)
    requires f.ltype.Submessage? && (!f.ptr.Msg? || !v.Sub? || |v.slots| != |f.ptr.desc.fields|)
    ensures EncodeValue(f, v) == None
  {
  }

  /** A stream that may hold exactly |e| bytes receives e. */
  lemma SubstreamWrote(s: Snap, u: Snap, e: seq<byte>, ok: bool)
    requires !s.sizing && s.room == |e| && s.written == 0 && Wrote(s, u, Some(e), ok)
    ensures ok && u.written == |e| && u.out == s.out + e && u.beyond == s.beyond
  {
  }

  lemma SliceOfSlice(b: seq<byte>, i: nat, j: nat)
    requires i + j <= |b|
    ensures b[i..][j..] == b[i + j..]
  {
  }

  lemma NoRoom(s: Snap, e: Option<seq<byte>>)
    requires e.Some? && !s.sizing && |e.value| > s.room
    ensures Wrote(s, s, e, false)
  {
  }

  /** What the substream received, the stream it was made from received. */
  lemma ParentWrote(t: Snap, s: Snap, u: Snap, v: Snap, e: seq<byte>)
    requires !t.sizing && |e| <= t.room && s.out == t.out && u.out == s.out + e
    requires v == t.(room := t.room - |e|, written := t.written + |e|, out := u.out)
    ensures Wrote(t, v, Some(e), true)
  {
  }

  /** A length prefix and what it counts. */
  function Prefixed(e: Option<seq<byte>>): Option<seq<byte>> {
    if e.Some? then Some(Delimited(e.value)) else None
  }

  lemma PrefixSplits(e: Option<seq<byte>>)
    ensures e.Some? ==> Prefixed(e) == Append(Some(VarintBytes(|e.value|)), e)
  {
  }

  lemma PackedSplits(f: Field, items: seq<Value>)
    requires items != [] && |items| <= f.arraySize && Packable(f.ltype)
    ensures EncodeArray(f, items) == Append(Some(KeyBytes(f.tag, 2)), Prefixed(EncodeItems(f, items)))
  {
  }

  lemma CounterWrote(s: Snap, u: Snap, e: Option<seq<byte>>, ok: bool)
    requires s.sizing && s.written == 0 && Wrote(s, u, e, ok)
    ensures ok <==> e.Some?
    ensures ok ==> u.written == |e.value|
  {
  }

  lemma CountWrote(s: Snap, u: Snap, e: Option<seq<byte>>)
    requires e.Some? && s.sizing && u == s.(written := s.written + |e.value|)
    ensures Wrote(s, u, e, true)
  {
  }

  /** Byte k is not NUL, so it belongs to what comes before the first NUL. */
  lemma UpToNulNext(b: seq<byte>, max: nat, k: nat)
    requires k < |b| && k < max && b[k] != 0
    ensures b[..k] + UpToNul(b[k..], max - k) == b[..k + 1] + UpToNul(b[k + 1..], max - (k + 1))
  {
    hide UpToNul;
    UpToNulStep(b[k..], max - k);
    assert b[k..][1..] == b[k + 1..];
    assert b[..k] + ([b[k]] + UpToNul(b[k + 1..], max - k - 1)) == b[..k + 1] + UpToNul(b[k + 1..], max - k - 1);
  }

  lemma UpToNulStep(b: seq<byte>, max: nat)
    ensures UpToNul(b, max) ==
            if max == 0 || b == [] || b[0] == 0 then [] else [b[0]] + UpToNul(b[1..], max - 1)
  {
  }
}
