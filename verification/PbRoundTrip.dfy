/** pb_decode takes back what pb_encode wrote. */
module PbRoundTrip {
  import opened Options
  import opened Words
  import opened PbWire
  import opened PbMessage

  // ---------- descriptors and messages the round trip is about ----------

  predicate FieldOk(f: Field)
    decreases f
  {
    && 1 <= f.tag < 0x2000_0000
    && (f.ltype.Submessage? ==> f.ptr.Msg? && DescOk(f.ptr.desc))
    && (f.htype.Singular? && !f.ltype.Submessage? ==> f.ptr.Null?)
  }

  /** Unique tags in 1 .. 2^29 - 1, and no defaults in proto3, at every nesting depth. */
  predicate DescOk(d: Desc)
    decreases d
  {
    GoodTags(d) && forall i :: 0 <= i < |d.fields| ==> FieldOk(d.fields[i])
  }

  /** Strings have room for their NUL, and so on inside. */
  predicate StorableValue(f: Field, v: Value)
    decreases f, 0
  {
    && (f.ltype.String? && v.Blob? ==> |UpToNul(v.bytes, f.dataSize)| < f.dataSize)
    && (f.ltype.Submessage? && f.ptr.Msg? && v.Sub? ==> StorableMessage(f.ptr.desc, v.slots))
  }

  predicate StorableSlot(f: Field, slot: Slot)
    decreases f, 1
  {
    match slot
    case One(v) => StorableValue(f, v)
    case Opt(has, v) => has ==> StorableValue(f, v)
    case Many(items) => forall k :: 0 <= k < |items| ==> StorableValue(f, items[k])
  }

  predicate SameGroup(d: Desc, i: nat, j: nat)
    requires i < |d.fields| && j < |d.fields|
  {
    d.fields[i].htype.Oneof? && d.fields[j].htype == d.fields[i].htype
  }

  predicate Active(slot: Slot) {
    slot.Opt? && slot.has
  }

  /** which_ names at most one member of a oneof. */
  predicate OneActive(d: Desc, slots: seq<Slot>)
    requires |slots| == |d.fields|
  {
    forall i, j :: 0 <= i < j < |slots| && SameGroup(d, i, j) ==> !Active(slots[i]) || !Active(slots[j])
  }

  predicate StorableMessage(d: Desc, slots: seq<Slot>)
    decreases d
  {
    && |slots| == |d.fields|
    && OneActive(d, slots)
    && (forall i :: 0 <= i < |slots| ==> StorableSlot(d.fields[i], slots[i]))
  }

  // ---------- the message that comes back ----------

  /** Strings end at their NUL, fields that are absent hold their defaults. */
  function NormalValue(f: Field, v: Value): Value
    decreases f, 0
  {
    if f.ltype.String? && v.Blob? then Blob(UpToNul(v.bytes, f.dataSize))
    else if f.ltype.Submessage? && f.ptr.Msg? && v.Sub? && |v.slots| == |f.ptr.desc.fields| then
      Sub(NormalMessage(f.ptr.desc, v.slots))
    else v
  }

  function NormalItems(f: Field, items: seq<Value>): (r: seq<Value>)
    ensures |r| == |items|
    decreases f, 1
  {
    seq(|items|, k requires 0 <= k < |items| => NormalValue(f, items[k]))
  }

  function NormalSlot(f: Field, slot: Slot): Slot
    decreases f, 2
  {
    match slot
    case One(v) => if f.htype.Singular? && IsZero(f, v) then DefaultSlot(f) else One(NormalValue(f, v))
    case Opt(has, v) => if has then Opt(true, NormalValue(f, v)) else DefaultSlot(f)
    case Many(items) => Many(NormalItems(f, items))
  }

  function NormalMessage(d: Desc, slots: seq<Slot>): (r: seq<Slot>)
    requires |slots| == |d.fields|
    ensures |r| == |slots|
    decreases d
  {
    seq(|slots|, i requires 0 <= i < |slots| => NormalSlot(d.fields[i], slots[i]))
  }

  // ---------- scalars ----------

  lemma DelimitedRoundTrip(b: seq<byte>, rest: seq<byte>)
    requires |b| < U32
    ensures ReadDelimited(Delimited(b) + rest) == Some(Read(b, rest))
  {
    hide ReadVarint32, VarintBytes;
    Varint32RoundTrip(|b|, b + rest);
    assert Delimited(b) + rest == VarintBytes(|b|) + (b + rest);
    assert (b + rest)[..|b|] == b && (b + rest)[|b|..] == rest;
  }

  lemma NumberRoundTrip(f: Field, n: int)
    requires EncodeScalar(f, Num(n)).Some? && !f.ltype.Fixed32? && !f.ltype.Fixed64?
    ensures var v := if f.ltype.Varint? then (if n < 0 then n + U64 else n)
                     else if f.ltype.UVarint? then n else ZigZag(n);
            0 <= v < U64 && EncodeScalar(f, Num(n)) == Some(VarintBytes(v)) && NumberFromVarint(f, v) == Some(Num(n))
  {
    hide VarintBytes, FixedBytes, Delimited, UpToNul;
    if f.ltype.SVarint? {
      ZigZagRoundTrip(n);
    }
  }

  lemma FixedFieldRoundTrip(v: nat, n: nat, rest: seq<byte>)
    requires (n == 4 && v < U32) || (n == 8 && v < U64)
    ensures FixedValue((FixedBytes(v, n) + rest)[..n]) == v && (FixedBytes(v, n) + rest)[n..] == rest
  {
    hide FixedBytes, FixedValue, Pow2;
    Pow2Values();
    FixedRoundTrip(v, n);
    assert (FixedBytes(v, n) + rest)[..n] == FixedBytes(v, n);
  }

  /** Every value of every scalar type that encodes comes back from its own bytes. */
  lemma ScalarRoundTrip(f: Field, v: Value, rest: seq<byte>)
    requires EncodeScalar(f, v).Some? && |EncodeScalar(f, v).value| < U32 && StorableValue(f, v)
    ensures DecodeScalar(f, EncodeScalar(f, v).value + rest) == Some(Read(NormalValue(f, v), rest))
  {
    hide VarintBytes, ReadVarint, ReadDelimited, NumberFromVarint, FixedBytes, FixedValue, UpToNul, ZigZag, UnZigZag;
    if v.Num? {
      if f.ltype.Fixed32? {
        FixedFieldRoundTrip(v.n, 4, rest);
      } else if f.ltype.Fixed64? {
        FixedFieldRoundTrip(v.n, 8, rest);
      } else {
        NumberRoundTrip(f, v.n);
        VarintRoundTrip(if f.ltype.Varint? then (if v.n < 0 then v.n + U64 else v.n)
                        else if f.ltype.UVarint? then v.n else ZigZag(v.n), rest);
      }
    } else if v.Blob? {
      DelimitedRoundTrip(if f.ltype.String? then UpToNul(v.bytes, f.dataSize) else v.bytes, rest);
    }
  }

  /** A string that fills its buffer without a NUL still encodes; its own bytes are then refused.
      Up to sizes a length prefix can carry, that is the only string that does not come back. */
  lemma StringComesBackIffTerminated(f: Field, v: Value, rest: seq<byte>)
    requires f.ltype.String? && EncodeScalar(f, v).Some? && |EncodeScalar(f, v).value| < U32
    ensures DecodeScalar(f, EncodeScalar(f, v).value + rest).Some? <==> |UpToNul(v.bytes, f.dataSize)| < f.dataSize
  {
    hide VarintBytes, ReadDelimited, UpToNul;
    DelimitedRoundTrip(UpToNul(v.bytes, f.dataSize), rest);
  }

  // ---------- fields and messages ----------

  lemma KeyRoundTrip(tag: nat, wire: nat, rest: seq<byte>)
    requires 1 <= tag < 0x2000_0000 && wire < 8
    ensures KeyBytes(tag, wire) + rest != []
    ensures ReadVarint32(KeyBytes(tag, wire) + rest) == Some(Read(tag * 8 + wire, rest))
    ensures (tag * 8 + wire) / 8 == tag && (tag * 8 + wire) % 8 == wire
  {
    hide VarintBytes, ReadVarint32;
    Varint32RoundTrip(tag * 8 + wire, rest);
  }

  lemma FindIts(d: Desc, i: nat)
    requires DescOk(d) && i < |d.fields|
    ensures Find(d, d.fields[i].tag) == i
  {
    hide Find;
    var k := Find(d, d.fields[i].tag);
    assert k <= i;
  }

  /** The state after field i has been decoded in state (slots, seen), with `rest` still to read. */
  function Stored(d: Desc, i: nat, slot: Slot, slots: seq<Slot>, seen: set<nat>, rest: seq<byte>): (p: Progress)
    requires i < |d.fields| == |slots|
    ensures |p.slots| == |d.fields|
  {
    Progress(Deactivate(d, i, slots)[i := slot], seen + Seen(d, i), rest)
  }

  lemma KeyedMeetsField(d: Desc, i: nat, wire: nat, slots: seq<Slot>, seen: set<nat>, s: seq<byte>)
    requires DescOk(d) && i < |d.fields| == |slots| && wire < 8
    requires DecodeSlot(d.fields[i], wire, s, slots[i]).Some?
    ensures var r := DecodeSlot(d.fields[i], wire, s, slots[i]).value;
            DecodeKeyed(d, d.fields[i].tag * 8 + wire, Progress(slots, seen, s)) ==
            Some(Stored(d, i, r.value, slots, seen, r.rest))
  {
    hide DecodeSlot, Deactivate, Seen, Find;
    FindIts(d, i);
  }

  /** One turn of the decoding loop, on field i's own key. */
  lemma LoopMeetsField(d: Desc, i: nat, wire: nat, slots: seq<Slot>, seen: set<nat>, s: seq<byte>)
    requires DescOk(d) && i < |d.fields| == |slots| && wire < 8
    requires DecodeSlot(d.fields[i], wire, s, slots[i]).Some?
    ensures var r := DecodeSlot(d.fields[i], wire, s, slots[i]).value;
            DecodeLoop(d, Progress(slots, seen, KeyBytes(d.fields[i].tag, wire) + s)) ==
            DecodeLoop(d, Stored(d, i, r.value, slots, seen, r.rest))
  {
    hide DecodeSlot, ReadVarint32, KeyBytes, Stored, DecodeKeyed;
    assert FieldOk(d.fields[i]);
    KeyRoundTrip(d.fields[i].tag, wire, s);
    KeyedMeetsField(d, i, wire, slots, seen, s);
  }

  /** The message decoded so far when fields below i have been met. */
  function Midway(d: Desc, m: seq<Slot>, i: nat): (r: seq<Slot>)
    requires |m| == |d.fields| && i <= |m|
    ensures |r| == |m|
  {
    NormalMessage(d, m)[..i] + Defaults(d)[i..]
  }

  function SeenBelow(d: Desc, i: nat): set<nat>
    requires i <= |d.fields|
  {
    if i == 0 then {} else SeenBelow(d, i - 1) + Seen(d, i - 1)
  }

  /** In the message decoded so far no oneof member is active that field i would deactivate. */
  lemma NothingToDeactivate(d: Desc, m: seq<Slot>, i: nat)
    requires |m| == |d.fields| && i < |m| && OneActive(d, m)
    requires d.fields[i].htype.Oneof? ==> Active(m[i])
    ensures Deactivate(d, i, Midway(d, m, i)) == Midway(d, m, i)
  {
    hide NormalValue, DefaultValue;
    var mid := Midway(d, m, i);
    forall j | 0 <= j < |m| && j != i && SameGroup(d, i, j)
      ensures !Active(mid[j])
    {
      if j < i {
        assert SameGroup(d, j, i);
        assert mid[j] == NormalSlot(d.fields[j], m[j]);
      } else {
        assert mid[j] == DefaultSlot(d.fields[j]);
      }
    }
  }

  lemma NextMidway(d: Desc, m: seq<Slot>, i: nat)
    requires |m| == |d.fields| && i < |m|
    ensures Midway(d, m, i)[i := NormalSlot(d.fields[i], m[i])] == Midway(d, m, i + 1)
  {
    hide NormalSlot, DefaultSlot;
  }

  /** A field whose slot, once decoded, is the one of the message that comes back. */
  lemma StoredIsMidway(d: Desc, m: seq<Slot>, i: nat, rest: seq<byte>)
    requires |m| == |d.fields| && i < |m| && OneActive(d, m)
    requires d.fields[i].htype.Oneof? ==> Active(m[i])
    ensures Stored(d, i, NormalSlot(d.fields[i], m[i]), Midway(d, m, i), SeenBelow(d, i), rest) ==
            Progress(Midway(d, m, i + 1), SeenBelow(d, i + 1), rest)
  {
    hide Midway, NormalSlot, Deactivate, Seen;
    NothingToDeactivate(d, m, i);
    NextMidway(d, m, i);
  }

  lemma {:induction false} SubmessageRoundTrip(f: Field, v: Value, rest: seq<byte>)
    requires FieldOk(f) && f.ltype.Submessage? && StorableValue(f, v)
    requires EncodeValue(f, v).Some? && |EncodeValue(f, v).value| < U32
    ensures DecodeValue(f, EncodeValue(f, v).value + rest, DefaultValue(f)) == Some(Read(NormalValue(f, v), rest))
    decreases f, 0
  {
    hide ReadDelimited, DecodeNoinit, Defaults, EncodeMessage, NormalMessage, StorableMessage, DescOk, VarintBytes;
    var e := EncodeMessage(f.ptr.desc, v.slots).value;
    assert |e| <= |Delimited(e)|;
    DelimitedRoundTrip(e, rest);
    MessageRoundTrip(f.ptr.desc, v.slots);
  }

  /** A value decoded over its field's default is the value encoded. */
  lemma {:induction false} ValueRoundTrip(f: Field, v: Value, rest: seq<byte>)
    requires FieldOk(f) && StorableValue(f, v)
    requires EncodeValue(f, v).Some? && |EncodeValue(f, v).value| < U32
    ensures DecodeValue(f, EncodeValue(f, v).value + rest, DefaultValue(f)) == Some(Read(NormalValue(f, v), rest))
    decreases f, 1
  {
    hide DecodeScalar, EncodeScalar, NormalValue, StorableValue, FieldOk;
    if f.ltype.Submessage? {
      SubmessageRoundTrip(f, v, rest);
    } else {
      ScalarRoundTrip(f, v, rest);
    }
  }

  /** A packed array comes back item by item. */
  lemma {:induction false} PackedRoundTrip(f: Field, done: seq<Value>, items: seq<Value>)
    requires FieldOk(f) && Packable(f.ltype) && |done| + |items| <= f.arraySize
    requires EncodeItems(f, items).Some? && |EncodeItems(f, items).value| < U32
    ensures DecodePacked(f, EncodeItems(f, items).value, done) == Some(done + items)
    decreases |items|
  {
    hide EncodeScalar, DecodeScalar, FieldOk, DefaultValue, EncodeValue, DecodeValue;
    if items == [] {
      assert done + items == done;
    } else {
      var rest := EncodeItems(f, items[1..]).value;
      ScalarItem(f, items[0], rest);
      PackedRoundTrip(f, done + [items[0]], items[1..]);
      assert done + [items[0]] + items[1..] == done + items;
    }
  }

  lemma ScalarItem(f: Field, v: Value, rest: seq<byte>)
    requires Packable(f.ltype) && EncodeValue(f, v).Some? && |EncodeValue(f, v).value| < U32
    ensures EncodeValue(f, v).value + rest != []
    ensures DecodeValue(f, EncodeValue(f, v).value + rest, DefaultValue(f)) == Some(Read(v, rest))
  {
    hide EncodeScalar, DecodeScalar;
    ScalarRoundTrip(f, v, rest);
  }

  /** The items of an unpacked array come back one key at a time. */
  lemma {:induction false} UnpackedRoundTrip(d: Desc, m: seq<Slot>, i: nat, k: nat, rest: seq<byte>)
    requires DescOk(d) && |m| == |d.fields| && i < |m| && OneActive(d, m)
    requires d.fields[i].htype.Repeated? && m[i].Many? && k <= |m[i].items| <= d.fields[i].arraySize
    requires !Packable(d.fields[i].ltype) && StorableSlot(d.fields[i], m[i])
    requires EncodeUnpacked(d.fields[i], m[i].items[k..]).Some?
    requires |EncodeUnpacked(d.fields[i], m[i].items[k..]).value| < U32
    ensures var f := d.fields[i];
            var all := NormalItems(f, m[i].items);
            DecodeLoop(d, Progress(Midway(d, m, i)[i := Many(all[..k])], SeenBelow(d, i),
                                   EncodeUnpacked(f, m[i].items[k..]).value + rest)) ==
            DecodeLoop(d, Progress(Midway(d, m, i)[i := Many(all)], SeenBelow(d, i), rest))
    decreases d, 0, |m[i].items| - k
  {
    hide DecodeLoop, KeyBytes, DecodeValue, EncodeValue, Midway, NormalValue, StorableValue, Deactivate, FieldOk, DefaultValue;
    var f, items := d.fields[i], m[i].items;
    var all := NormalItems(f, items);
    if k == |items| {
      assert all[..k] == all;
      assert [] + rest == rest;
    } else {
      assert items[k..][0] == items[k] && items[k..][1..] == items[k + 1..];
      var e, tail := EncodeValue(f, items[k]).value, EncodeUnpacked(f, items[k + 1..]).value;
      var slots := Midway(d, m, i)[i := Many(all[..k])];
      assert FieldOk(f);
      ValueRoundTrip(f, items[k], tail + rest);
      assert EncodeUnpacked(f, items[k..]).value + rest == KeyBytes(f.tag, 2) + (e + (tail + rest));
      assert all[..k] + [NormalValue(f, items[k])] == all[..k + 1];
      LoopMeetsField(d, i, 2, slots, SeenBelow(d, i), e + (tail + rest));
      assert Deactivate(d, i, slots)[i := Many(all[..k + 1])] == Midway(d, m, i)[i := Many(all[..k + 1])] by {
        NotOneof(d, i, slots);
      }
      assert SeenBelow(d, i) + Seen(d, i) == SeenBelow(d, i);
      UnpackedRoundTrip(d, m, i, k + 1, rest);
    }
  }

  lemma NotOneof(d: Desc, i: nat, slots: seq<Slot>)
    requires i < |d.fields| == |slots| && !d.fields[i].htype.Oneof?
    ensures Deactivate(d, i, slots) == slots
  {
  }

  /** The first item of an array is decoded over an empty one. */
  lemma {:induction false} ArrayRoundTrip(d: Desc, m: seq<Slot>, i: nat, rest: seq<byte>)
    requires DescOk(d) && |m| == |d.fields| && i < |m| && OneActive(d, m)
    requires d.fields[i].htype.Repeated? && m[i].Many? && StorableSlot(d.fields[i], m[i])
    requires EncodeSlot(d.fields[i], m[i]).Some? && |EncodeSlot(d.fields[i], m[i]).value| < U32
    ensures DecodeLoop(d, Progress(Midway(d, m, i), SeenBelow(d, i), EncodeSlot(d.fields[i], m[i]).value + rest)) ==
            DecodeLoop(d, Progress(Midway(d, m, i + 1), SeenBelow(d, i + 1), rest))
    decreases d, 1
  {
    hide DecodeLoop, KeyBytes, DecodeValue, EncodeValue, NormalValue, DefaultValue, Deactivate,
         EncodeItems, DecodePacked, Delimited, ReadDelimited, EncodeUnpacked, OneActive, StorableValue, Midway;
    var f, items := d.fields[i], m[i].items;
    assert FieldOk(f);
    var mid := Midway(d, m, i);
    var all := NormalItems(f, items);
    assert mid[i] == Many([]) by { MidwayAt(d, m, i); }
    StoredIsMidway(d, m, i, rest);
    if items == [] {
      NextMidway(d, m, i);
      assert mid[i := Many([])] == mid;
      assert all == [] && [] + rest == rest;
      assert SeenBelow(d, i + 1) == SeenBelow(d, i);
    } else if Packable(f.ltype) {
      var e := EncodeItems(f, items).value;
      assert all == items by { NormalScalars(f, items); }
      assert [] + items == items;
      assert |e| <= |Delimited(e)| by { DelimitedLength(e); }
      PackedRoundTrip(f, [], items);
      DelimitedRoundTrip(e, rest);
      assert EncodeSlot(f, m[i]).value + rest == KeyBytes(f.tag, 2) + (Delimited(e) + rest);
      LoopMeetsField(d, i, 2, mid, SeenBelow(d, i), Delimited(e) + rest);
    } else {
      assert items[0..] == items;
      UnpackedRoundTrip(d, m, i, 0, rest);
      assert mid[i := Many(all[..0])] == mid;
      NextMidway(d, m, i);
      assert SeenBelow(d, i + 1) == SeenBelow(d, i);
    }
  }

  lemma MidwayAt(d: Desc, m: seq<Slot>, i: nat)
    requires |m| == |d.fields| && i < |m|
    ensures Midway(d, m, i)[i] == DefaultSlot(d.fields[i])
  {
  }

  lemma NormalScalars(f: Field, items: seq<Value>)
    requires Packable(f.ltype)
    ensures NormalItems(f, items) == items
  {
  }

  lemma DelimitedLength(e: seq<byte>)
    ensures |e| < |Delimited(e)|
  {
  }

  lemma {:induction false} SingleRoundTrip(d: Desc, m: seq<Slot>, i: nat, v: Value, rest: seq<byte>)
    requires DescOk(d) && |m| == |d.fields| && i < |m| && OneActive(d, m)
    requires !d.fields[i].htype.Repeated? && StorableValue(d.fields[i], v)
    requires d.fields[i].htype.Singular? ==> !IsZero(d.fields[i], v)
    requires m[i] == if d.fields[i].htype.Required? || d.fields[i].htype.Singular? then One(v) else Opt(true, v)
    requires EncodeTagged(d.fields[i], v).Some? && |EncodeTagged(d.fields[i], v).value| < U32
    ensures DecodeLoop(d, Progress(Midway(d, m, i), SeenBelow(d, i), EncodeTagged(d.fields[i], v).value + rest)) ==
            DecodeLoop(d, Progress(Midway(d, m, i + 1), SeenBelow(d, i + 1), rest))
    decreases d, 1
  {
    hide DecodeLoop, KeyBytes, DecodeValue, EncodeValue, NormalValue, DefaultValue, OneActive, StorableValue,
         IsZero, Midway, SeenBelow, Stored;
    var f := d.fields[i];
    assert FieldOk(f);
    MidwayAt(d, m, i);
    var e := EncodeValue(f, v).value;
    ValueRoundTrip(f, v, rest);
    assert EncodeTagged(f, v).value + rest == KeyBytes(f.tag, WireType(f.ltype)) + (e + rest);
    LoopMeetsField(d, i, WireType(f.ltype), Midway(d, m, i), SeenBelow(d, i), e + rest);
    StoredIsMidway(d, m, i, rest);
  }

  /** Decoding one field's bytes advances the decoded message by that field. */
  lemma {:induction false} SlotRoundTrip(d: Desc, m: seq<Slot>, i: nat, rest: seq<byte>)
    requires DescOk(d) && |m| == |d.fields| && i < |m| && OneActive(d, m) && StorableSlot(d.fields[i], m[i])
    requires EncodeSlot(d.fields[i], m[i]).Some? && |EncodeSlot(d.fields[i], m[i]).value| < U32
    ensures DecodeLoop(d, Progress(Midway(d, m, i), SeenBelow(d, i), EncodeSlot(d.fields[i], m[i]).value + rest)) ==
            DecodeLoop(d, Progress(Midway(d, m, i + 1), SeenBelow(d, i + 1), rest))
    decreases d, 2
  {
    hide DecodeLoop, EncodeTagged, EncodeArray, Midway, OneActive, StorableValue, DescOk, NormalValue, IsZero;
    var f, slot := d.fields[i], m[i];
    if f.htype.Repeated? {
      ArrayRoundTrip(d, m, i, rest);
    } else if (slot.Opt? && !slot.has) || (f.htype.Singular? && IsZero(f, slot.v)) {
      NextMidway(d, m, i);
      MidwayAt(d, m, i);
      assert Midway(d, m, i)[i := DefaultSlot(f)] == Midway(d, m, i);
      assert [] + rest == rest;
      assert SeenBelow(d, i + 1) == SeenBelow(d, i);
    } else {
      SingleRoundTrip(d, m, i, slot.v, rest);
    }
  }

  lemma {:induction false} FieldsRoundTrip(d: Desc, m: seq<Slot>, i: nat)
    requires DescOk(d) && StorableMessage(d, m) && i <= |m|
    requires EncodeFrom(d, m, i).Some? && |EncodeFrom(d, m, i).value| < U32
    ensures DecodeLoop(d, Progress(Midway(d, m, i), SeenBelow(d, i), EncodeFrom(d, m, i).value)) ==
            Some(Outcome(Progress(NormalMessage(d, m), SeenBelow(d, |m|), []), false))
    decreases d, 3, |m| - i
  {
    hide EncodeSlot, StorableSlot, DecodeKeyed, ReadVarint32, DescOk, OneActive, SeenBelow, NormalMessage;
    if i == |m| {
      assert Midway(d, m, i) == NormalMessage(d, m);
    } else {
      SlotRoundTrip(d, m, i, EncodeFrom(d, m, i + 1).value);
      FieldsRoundTrip(d, m, i + 1);
    }
  }

  lemma {:induction false} SeenCounts(d: Desc, i: nat, k: nat)
    requires i <= |d.fields| && k < RequiredIndex(d, i) && k < MAX_REQUIRED
    ensures k in SeenBelow(d, i)
    decreases i
  {
    if k < RequiredIndex(d, i - 1) {
      SeenCounts(d, i - 1, k);
    }
  }

  /** Decoding what was encoded succeeds, reads everything and gives the message back. */
  lemma {:induction false} MessageRoundTrip(d: Desc, m: seq<Slot>)
    requires DescOk(d) && StorableMessage(d, m) && EncodeMessage(d, m).Some? && |EncodeMessage(d, m).value| < U32
    ensures DecodeNoinit(d, EncodeMessage(d, m).value, Defaults(d)) == Some(Read(NormalMessage(d, m), []))
    decreases d, 4
  {
    hide DecodeLoop, EncodeFrom, DescOk, StorableMessage, NormalMessage, Defaults;
    FieldsRoundTrip(d, m, 0);
    assert Midway(d, m, 0) == Defaults(d);
    forall k | 0 <= k < RequiredIndex(d, |d.fields|) && k < MAX_REQUIRED
      ensures k in SeenBelow(d, |m|)
    {
      SeenCounts(d, |d.fields|, k);
    }
  }

  // ---------- the message that comes back is the one encoded ----------

  /** Equal as far as a reader of present fields can tell: strings compare up to their NUL. */
  predicate SameValue(f: Field, v: Value, w: Value)
    decreases f, 0
  {
    if f.ltype.String? && v.Blob? then w == Blob(UpToNul(v.bytes, f.dataSize))
    else if f.ltype.Submessage? && f.ptr.Msg? && v.Sub? then w.Sub? && SameMessage(f.ptr.desc, v.slots, w.slots)
    else w == v
  }

  predicate SameSlot(f: Field, s: Slot, t: Slot)
    decreases f, 1
  {
    match (s, t)
    case (One(v), One(w)) => SameValue(f, v, w)
    case (Opt(has, v), Opt(has', w)) => has == has' && (has ==> SameValue(f, v, w))
    case (Many(a), Many(b)) => |a| == |b| && forall k :: 0 <= k < |a| ==> SameValue(f, a[k], b[k])
    case (_, _) => false
  }

  predicate SameMessage(d: Desc, m: seq<Slot>, n: seq<Slot>)
    decreases d
  {
    |m| == |n| == |d.fields| && forall i :: 0 <= i < |m| ==> SameSlot(d.fields[i], m[i], n[i])
  }

  /** What proto3 does not send is what the receiver starts from. */
  lemma {:induction false} ZeroIsDefault(f: Field, v: Value)
    requires IsZero(f, v) && FieldOk(f) && (f.ltype.Submessage? || f.ptr.Null?)
    ensures SameValue(f, v, DefaultValue(f))
    decreases f
  {
    hide DescOk;
    if f.ltype.Submessage? {
      var sub := f.ptr.desc;
      forall i | 0 <= i < |v.slots|
        ensures SameSlot(sub.fields[i], v.slots[i], DefaultSlot(sub.fields[i]))
      {
        assert IsUnset(sub.fields[i], v.slots[i]);
        FieldOfDesc(sub, i);
        if v.slots[i].One? {
          ZeroIsDefault(sub.fields[i], v.slots[i].v);
        }
      }
    }
  }

  lemma FieldOfDesc(d: Desc, i: nat)
    requires DescOk(d) && i < |d.fields|
    ensures FieldOk(d.fields[i])
  {
  }

  lemma {:induction false} NormalSame(d: Desc, m: seq<Slot>)
    requires DescOk(d) && EncodeMessage(d, m).Some?
    ensures SameMessage(d, m, NormalMessage(d, m))
    decreases d
  {
    hide NormalSlot, SameSlot, EncodeSlot, FieldOk;
    forall i | 0 <= i < |m|
      ensures SameSlot(d.fields[i], m[i], NormalSlot(d.fields[i], m[i]))
    {
      EncodedSlot(d, m, 0, i);
      NormalSameSlot(d.fields[i], m[i]);
    }
  }

  lemma {:induction false} EncodedSlot(d: Desc, m: seq<Slot>, k: nat, i: nat)
    requires |m| == |d.fields| && k <= i < |m| && EncodeFrom(d, m, k).Some?
    ensures EncodeSlot(d.fields[i], m[i]).Some?
    decreases i - k
  {
    hide EncodeSlot;
    if k < i {
      EncodedSlot(d, m, k + 1, i);
    }
  }

  lemma {:induction false} NormalSameSlot(f: Field, slot: Slot)
    requires FieldOk(f) && EncodeSlot(f, slot).Some?
    ensures SameSlot(f, slot, NormalSlot(f, slot))
    decreases f, 1
  {
    hide NormalValue, SameValue, EncodeValue, DefaultValue, EncodeItems, EncodeUnpacked, IsZero;
    match slot
    case One(v) =>
      if f.htype.Singular? && IsZero(f, v) {
        ZeroIsDefault(f, v);
      } else {
        NormalSameValue(f, v);
      }
    case Opt(has, v) => if has { NormalSameValue(f, v); }
    case Many(items) =>
      forall k | 0 <= k < |items|
        ensures SameValue(f, items[k], NormalValue(f, items[k]))
      {
        EncodedItem(f, items, k);
        NormalSameValue(f, items[k]);
      }
  }

  lemma {:induction false} EncodedItem(f: Field, items: seq<Value>, k: nat)
    requires k < |items| && (EncodeItems(f, items).Some? || EncodeUnpacked(f, items).Some?)
    ensures EncodeValue(f, items[k]).Some?
    decreases k
  {
    hide EncodeValue;
    if k > 0 {
      EncodedItem(f, items[1..], k - 1);
    }
  }

  lemma {:induction false} NormalSameValue(f: Field, v: Value)
    requires FieldOk(f) && EncodeValue(f, v).Some?
    ensures SameValue(f, v, NormalValue(f, v))
    decreases f, 0
  {
    hide DescOk, EncodeMessage, NormalMessage, SameMessage, EncodeScalar;
    if f.ltype.Submessage? {
      EncodedLength(f.ptr.desc, v.slots);
      NormalSame(f.ptr.desc, v.slots);
    }
  }

  lemma EncodedLength(d: Desc, m: seq<Slot>)
    requires EncodeMessage(d, m).Some?
    ensures |m| == |d.fields|
  {
  }

  /** pb_decode of pb_encode's output succeeds, consumes all of it and gives back the message: its
      fields are those encoded, up to the contents of absent fields and what follows a string's
      NUL. */
  lemma RoundTrip(d: Desc, m: seq<Slot>)
    requires DescOk(d) && StorableMessage(d, m)
    requires EncodeMessage(d, m).Some? && |EncodeMessage(d, m).value| < U32
    ensures Decode(d, EncodeMessage(d, m).value).Some?
    ensures var r := Decode(d, EncodeMessage(d, m).value).value;
            r.rest == [] && r.value == NormalMessage(d, m) && SameMessage(d, m, r.value)
  {
    hide DecodeNoinit, StorableMessage, EncodeMessage, NormalMessage, SameMessage, DescOk, Defaults;
    MessageRoundTrip(d, m);
    NormalSame(d, m);
  }
}
