/** What readers and writers of different versions of a message make of each other's bytes: fields that
    the reader does not have, numbers of other widths, arrays packed or not, fields that come twice. */
module PbCompat {
  import opened Options
  import opened Words
  import opened PbWire
  import opened PbMessage
  import opened PbMerge
  import opened PbRoundTrip

  // ---------- fields the reader does not have ----------

  /** What can follow a key: a varint, that is, bytes of which the last alone has its top bit clear; eight
      bytes; a length and as many bytes; four bytes. */
  datatype Payload = Groups(b: seq<byte>) | Eight(b: seq<byte>) | Prefixed(b: seq<byte>) | Four(b: seq<byte>) {
    predicate Ok() {
      match this
      case Groups(b) => b != [] && b[|b| - 1] < 0x80 && forall i :: 0 <= i < |b| - 1 ==> b[i] >= 0x80
      case Eight(b) => |b| == 8
      case Prefixed(b) => |b| < U32
      case Four(b) => |b| == 4
    }

    /** The wire types of the Protocol Buffers encoding. */
    function Type(): nat {
      match this
      case Groups(_) => 0
      case Eight(_) => 1
      case Prefixed(_) => 2
      case Four(_) => 5
    }

    function Bytes(): seq<byte> {
      if this.Prefixed? then Delimited(b) else b
    }
  }

  lemma {:induction false} GroupsSkipped(b: seq<byte>, rest: seq<byte>)
    requires Groups(b).Ok()
    ensures SkipVarint(b + rest) == Some(rest)
    decreases |b|
  {
    assert (b + rest)[1..] == b[1..] + rest;
    if |b| > 1 {
      GroupsSkipped(b[1..], rest);
    } else {
      assert b[1..] + rest == rest;
    }
  }

  /** pb_skip_field takes exactly the payload off. */
  lemma PayloadSkipped(p: Payload, rest: seq<byte>)
    requires p.Ok()
    ensures Skip(p.Type(), p.Bytes() + rest) == Some(rest)
  {
    hide SkipVarint, ReadDelimited, Delimited;
    match p
    case Groups(b) => GroupsSkipped(b, rest);
    case Eight(b) => assert (b + rest)[8..] == rest;
    case Prefixed(b) => DelimitedRoundTrip(b, rest);
    case Four(b) => assert (b + rest)[4..] == rest;
  }

  predicate Knows(d: Desc, tag: nat) {
    exists i :: 0 <= i < |d.fields| && d.fields[i].tag == tag
  }

  lemma PayloadIsUnknown(d: Desc, tag: nat, p: Payload)
    requires 1 <= tag < 0x2000_0000 && !Knows(d, tag) && p.Ok()
    ensures UnknownField(d, KeyBytes(tag, p.Type()) + p.Bytes())
  {
    KeyRoundTrip(tag, p.Type(), p.Bytes());
    PayloadSkipped(p, []);
    assert p.Bytes() + [] == p.Bytes();
    hide KeyBytes, Skip, ReadVarint32, Payload.Bytes;
  }

  /** The part before is decoded without meeting a zero tag. */
  predicate ReadsOn(d: Desc, a: seq<byte>, m: seq<Slot>)
    requires |m| == |d.fields|
  {
    var o := DecodeLoop(d, Progress(m, {}, a));
    o.Some? && !o.value.zeroTag
  }

  /** A field that the message does not have, whatever its tag, type and contents, changes nothing: neither
      the message, nor success or failure, nor the bytes left. */
  lemma UnknownPayloadIgnored(d: Desc, a: seq<byte>, tag: nat, p: Payload, b: seq<byte>, m: seq<Slot>)
    requires |m| == |d.fields| && 1 <= tag < 0x2000_0000 && !Knows(d, tag) && p.Ok() && ReadsOn(d, a, m)
    ensures DecodeNoinit(d, a + (KeyBytes(tag, p.Type()) + p.Bytes()) + b, m) == DecodeNoinit(d, a + b, m)
  {
    hide DecodeNoinit, DecodeLoop, KeyBytes, Payload.Ok, Payload.Type, Payload.Bytes, Knows, UnknownField;
    PayloadIsUnknown(d, tag, p);
    UnknownFieldIgnored(d, a, KeyBytes(tag, p.Type()) + p.Bytes(), b, m);
  }

  /** A payload of which the end is missing. */
  predicate CutShort(wire: nat, s: seq<byte>) {
    match wire
    case 0 => forall i :: 0 <= i < |s| ==> s[i] >= 0x80
    case 1 => |s| < 8
    case 2 => exists n: nat :: n < U32 && |s| < |VarintBytes(n)| + n && VarintBytes(n) <= s
    case 5 => |s| < 4
    case _ => false
  }

  lemma {:induction false} CutVarint(s: seq<byte>)
    requires CutShort(0, s)
    ensures SkipVarint(s) == None
    decreases |s|
  {
    if s != [] {
      CutVarint(s[1..]);
    }
  }

  lemma NotSkipped(wire: nat, s: seq<byte>)
    requires wire in {3, 4, 6, 7} || CutShort(wire, s)
    ensures Skip(wire, s) == None
  {
    hide VarintBytes, ReadVarint32, SkipVarint;
    if wire == 0 {
      CutVarint(s);
    } else if wire == 2 {
      var n: nat :| n < U32 && |s| < |VarintBytes(n)| + n && VarintBytes(n) <= s;
      var rest := s[|VarintBytes(n)|..];
      assert s == VarintBytes(n) + rest;
      Varint32RoundTrip(n, rest);
    }
  }

  /** An unknown field of another wire type (groups, or none at all), or one that is cut short, makes the
      decode fail. */
  lemma BadUnknownRefused(d: Desc, a: seq<byte>, tag: nat, wire: nat, s: seq<byte>, m: seq<Slot>)
    requires |m| == |d.fields| && 1 <= tag < 0x2000_0000 && !Knows(d, tag) && wire < 8 && ReadsOn(d, a, m)
    requires wire in {3, 4, 6, 7} || CutShort(wire, s)
    ensures DecodeNoinit(d, a + (KeyBytes(tag, wire) + s), m) == None
  {
    hide DecodeLoop, KeyBytes, CutShort;
    var p := Progress(m, {}, a);
    LoopOfConcatenation(d, p, KeyBytes(tag, wire) + s);
    LoopRefuses(d, DecodeLoop(d, p).value.p, tag, wire, s);
  }

  lemma LoopRefuses(d: Desc, p: Progress, tag: nat, wire: nat, s: seq<byte>)
    requires |p.slots| == |d.fields| && 1 <= tag < 0x2000_0000 && !Knows(d, tag) && wire < 8
    requires wire in {3, 4, 6, 7} || CutShort(wire, s)
    ensures DecodeLoop(d, p.(rest := KeyBytes(tag, wire) + s)) == None
  {
    hide ReadVarint32, KeyBytes, Skip, CutShort;
    NotSkipped(wire, s);
    KeyRoundTrip(tag, wire, s);
    assert Find(d, tag) == |d.fields|;
    assert DecodeKeyed(d, tag * 8 + wire, p.(rest := s)) == None;
  }

  // ---------- what another version writes ----------

  lemma {:induction false} VarintIsGroups(v: nat)
    ensures Groups(VarintBytes(v)).Ok()
    decreases v
  {
    if v >= 0x80 {
      VarintIsGroups(v / 0x80);
      var t := VarintBytes(v / 0x80);
      assert VarintBytes(v) == [v % 0x80 + 0x80] + t;
    }
  }

  /** What the encoder writes behind a field's key is a payload of the type in the key. */
  lemma EncodedPayload(f: Field, v: Value) returns (p: Payload)
    requires EncodeValue(f, v).Some? && |EncodeValue(f, v).value| < U32
    ensures p.Ok() && p.Type() == WireType(f.ltype) && p.Bytes() == EncodeValue(f, v).value
  {
    hide VarintBytes, FixedBytes, UpToNul, ZigZag, EncodeMessage;
    match f.ltype
    case Varint =>
      VarintIsGroups(if v.n < 0 then v.n + U64 else v.n);
      p := Groups(EncodeValue(f, v).value);
    case UVarint =>
      VarintIsGroups(v.n);
      p := Groups(EncodeValue(f, v).value);
    case SVarint =>
      VarintIsGroups(ZigZag(v.n));
      p := Groups(EncodeValue(f, v).value);
    case Fixed32 => p := Four(EncodeValue(f, v).value);
    case Fixed64 => p := Eight(EncodeValue(f, v).value);
    case Bytes => p := Prefixed(v.bytes);
    case String => p := Prefixed(UpToNul(v.bytes, f.dataSize));
    case FixedLengthBytes => p := Prefixed(v.bytes);
    case Submessage =>
      var e := EncodeMessage(f.ptr.desc, v.slots).value;
      DelimitedLength(e);
      p := Prefixed(e);
  }

  /** Every value of every type that the encoder writes with its key is passed over by a reader that does
      not have the field: the key names the wire type that the value has. */
  lemma EncodedIgnored(d: Desc, a: seq<byte>, f: Field, v: Value, b: seq<byte>, m: seq<Slot>)
    requires |m| == |d.fields| && 1 <= f.tag < 0x2000_0000 && !Knows(d, f.tag) && ReadsOn(d, a, m)
    requires EncodeTagged(f, v).Some? && |EncodeTagged(f, v).value| < U32
    ensures DecodeNoinit(d, a + EncodeTagged(f, v).value + b, m) == DecodeNoinit(d, a + b, m)
  {
    hide DecodeNoinit, DecodeLoop, EncodeValue, KeyBytes, WireType, Payload.Ok, Payload.Type, Payload.Bytes;
    var p := EncodedPayload(f, v);
    UnknownPayloadIgnored(d, a, f.tag, p, b, m);
  }

  lemma TaggedSkipped(d: Desc, f: Field, v: Value, p: Progress)
    requires |p.slots| == |d.fields| && 1 <= f.tag < 0x2000_0000 && !Knows(d, f.tag)
    requires EncodeTagged(f, v).Some? && |EncodeTagged(f, v).value| < U32
    ensures DecodeLoop(d, p.(rest := EncodeTagged(f, v).value + p.rest)) == DecodeLoop(d, p)
  {
    hide DecodeLoop, EncodeValue, KeyBytes, WireType, Payload.Ok, Payload.Type, Payload.Bytes, UnknownField;
    var q := EncodedPayload(f, v);
    PayloadIsUnknown(d, f.tag, q);
    UnknownSkipped(d, EncodeTagged(f, v).value, p);
  }

  lemma {:induction false} UnpackedSkipped(d: Desc, f: Field, items: seq<Value>, p: Progress)
    requires |p.slots| == |d.fields| && 1 <= f.tag < 0x2000_0000 && !Knows(d, f.tag)
    requires EncodeUnpacked(f, items).Some? && |EncodeUnpacked(f, items).value| < U32
    ensures DecodeLoop(d, p.(rest := EncodeUnpacked(f, items).value + p.rest)) == DecodeLoop(d, p)
    decreases |items|
  {
    hide DecodeLoop, EncodeTagged;
    if items == [] {
      assert [] + p.rest == p.rest;
    } else {
      var e, tail := EncodeTagged(f, items[0]).value, EncodeUnpacked(f, items[1..]).value;
      assert EncodeUnpacked(f, items).value + p.rest == e + (tail + p.rest);
      TaggedSkipped(d, f, items[0], p.(rest := tail + p.rest));
      UnpackedSkipped(d, f, items[1..], p);
    }
  }

  lemma SlotSkipped(d: Desc, f: Field, slot: Slot, p: Progress)
    requires |p.slots| == |d.fields| && 1 <= f.tag < 0x2000_0000 && !Knows(d, f.tag)
    requires EncodeSlot(f, slot).Some? && |EncodeSlot(f, slot).value| < U32
    ensures DecodeLoop(d, p.(rest := EncodeSlot(f, slot).value + p.rest)) == DecodeLoop(d, p)
  {
    hide DecodeLoop, EncodeTagged, EncodeUnpacked, EncodeItems, KeyBytes, IsZero, UnknownField, Delimited;
    assert [] + p.rest == p.rest;
    if slot.Many? {
      if slot.items != [] && Packable(f.ltype) {
        var e := EncodeItems(f, slot.items).value;
        DelimitedLength(e);
        PayloadIsUnknown(d, f.tag, Prefixed(e));
        UnknownSkipped(d, EncodeSlot(f, slot).value, p);
      } else if slot.items != [] {
        UnpackedSkipped(d, f, slot.items, p);
      }
    } else if EncodeSlot(f, slot).value != [] {
      TaggedSkipped(d, f, slot.v, p);
    }
  }

  /** None of e's fields is one of d's. */
  predicate Foreign(d: Desc, e: Desc) {
    forall i :: 0 <= i < |e.fields| ==> 1 <= e.fields[i].tag < 0x2000_0000 && !Knows(d, e.fields[i].tag)
  }

  lemma {:induction false} FieldsSkipped(d: Desc, e: Desc, n: seq<Slot>, i: nat, p: Progress)
    requires |p.slots| == |d.fields| && Foreign(d, e) && i <= |e.fields| == |n|
    requires EncodeFrom(e, n, i).Some? && |EncodeFrom(e, n, i).value| < U32
    ensures DecodeLoop(d, p.(rest := EncodeFrom(e, n, i).value + p.rest)) == DecodeLoop(d, p)
    decreases |n| - i
  {
    hide DecodeLoop, EncodeSlot, Knows;
    if i == |n| {
      assert [] + p.rest == p.rest;
    } else {
      var s, tail := EncodeSlot(e.fields[i], n[i]).value, EncodeFrom(e, n, i + 1).value;
      assert EncodeFrom(e, n, i).value + p.rest == s + (tail + p.rest);
      SlotSkipped(d, e.fields[i], n[i], p.(rest := tail + p.rest));
      FieldsSkipped(d, e, n, i + 1, p);
    }
  }

  /** Forward compatibility: a whole message's worth of fields that the reader does not have, as the
      encoder writes them, arrays, oneofs and nested messages included, may stand anywhere between its own
      fields and changes nothing. */
  lemma ForeignFieldsIgnored(d: Desc, a: seq<byte>, e: Desc, n: seq<Slot>, b: seq<byte>, m: seq<Slot>)
    requires |m| == |d.fields| && Foreign(d, e) && ReadsOn(d, a, m)
    requires EncodeMessage(e, n).Some? && |EncodeMessage(e, n).value| < U32
    ensures DecodeNoinit(d, a + EncodeMessage(e, n).value + b, m) == DecodeNoinit(d, a + b, m)
  {
    hide DecodeLoop, EncodeFrom, Foreign;
    var u, p := EncodeMessage(e, n).value, Progress(m, {}, a);
    LoopOfConcatenation(d, p, u + b);
    LoopOfConcatenation(d, p, b);
    assert a + u + b == a + (u + b);
    FieldsSkipped(d, e, n, 0, DecodeLoop(d, p).value.p.(rest := b));
  }

  // ---------- numbers of other widths ----------

  /** An integer that fits two widths is the same bytes in both, so a reader with the one takes it from a
      writer with the other. */
  lemma WidthsAgree(f: Field, g: Field, n: int, rest: seq<byte>)
    requires f.ltype == g.ltype && f.ltype in {Varint, UVarint, SVarint}
    requires EncodeScalar(f, Num(n)).Some? && EncodeScalar(g, Num(n)).Some?
    ensures EncodeScalar(g, Num(n)) == EncodeScalar(f, Num(n))
    ensures DecodeScalar(g, EncodeScalar(f, Num(n)).value + rest) == Some(Read(Num(n), rest))
  {
    NumberRoundTrip(f, n);
    NumberRoundTrip(g, n);
    hide VarintBytes, ReadVarint, NumberFromVarint, ZigZag;
    VarintRoundTrip(if f.ltype.Varint? then (if n < 0 then n + U64 else n) else if f.ltype.UVarint? then n else ZigZag(n), rest);
  }

  // ---------- arrays packed or not ----------

  /** Where items are appended to what an array holds. */
  predicate HasRoom(d: Desc, i: nat, slots: seq<Slot>, items: seq<Value>) {
    && i < |d.fields| == |slots| && slots[i].Many? && d.fields[i].htype.Repeated? && Packable(d.fields[i].ltype)
    && |slots[i].items| + |items| <= d.fields[i].arraySize
  }

  lemma PackedAppends(d: Desc, i: nat, slots: seq<Slot>, seen: set<nat>, items: seq<Value>, rest: seq<byte>)
    requires DescOk(d) && HasRoom(d, i, slots, items)
    requires EncodeItems(d.fields[i], items).Some? && |EncodeItems(d.fields[i], items).value| < U32
    ensures var f := d.fields[i];
            DecodeLoop(d, Progress(slots, seen, KeyBytes(f.tag, 2) + (Delimited(EncodeItems(f, items).value) + rest))) ==
            DecodeLoop(d, Progress(slots[i := Many(slots[i].items + items)], seen, rest))
  {
    hide DecodeLoop, KeyBytes, EncodeItems, DecodePacked, Delimited, ReadDelimited, Deactivate, DescOk, FieldOk;
    var f := d.fields[i];
    FieldOfDesc(d, i);
    var e := EncodeItems(f, items).value;
    PackedRoundTrip(f, slots[i].items, items);
    DelimitedRoundTrip(e, rest);
    NotOneof(d, i, slots);
    assert seen + Seen(d, i) == seen;
    LoopMeetsField(d, i, 2, slots, seen, Delimited(e) + rest);
  }

  lemma {:induction false} UnpackedAppends(d: Desc, i: nat, slots: seq<Slot>, seen: set<nat>, items: seq<Value>, rest: seq<byte>)
    requires DescOk(d) && HasRoom(d, i, slots, items)
    requires EncodeUnpacked(d.fields[i], items).Some? && |EncodeUnpacked(d.fields[i], items).value| < U32
    ensures DecodeLoop(d, Progress(slots, seen, EncodeUnpacked(d.fields[i], items).value + rest)) ==
            DecodeLoop(d, Progress(slots[i := Many(slots[i].items + items)], seen, rest))
    decreases |items|
  {
    hide DecodeLoop, KeyBytes, EncodeValue, DecodeValue, DefaultValue, Deactivate, DescOk, FieldOk;
    var f, held := d.fields[i], slots[i].items;
    if items == [] {
      assert held + items == held && slots[i := Many(held)] == slots && [] + rest == rest;
    } else {
      FieldOfDesc(d, i);
      var e, tail := EncodeValue(f, items[0]).value, EncodeUnpacked(f, items[1..]).value;
      ScalarItem(f, items[0], tail + rest);
      NotOneof(d, i, slots);
      assert seen + Seen(d, i) == seen;
      assert EncodeUnpacked(f, items).value + rest == KeyBytes(f.tag, WireType(f.ltype)) + (e + (tail + rest));
      LoopMeetsField(d, i, WireType(f.ltype), slots, seen, e + (tail + rest));
      var next := slots[i := Many(held + [items[0]])];
      UnpackedAppends(d, i, next, seen, items[1..], rest);
      assert (held + [items[0]]) + items[1..] == held + items;
      assert next[i := Many(held + items)] == slots[i := Many(held + items)];
    }
  }

  /** A reader takes an array of numbers packed and unpacked alike, whatever it holds already. */
  lemma PackedOrNot(d: Desc, i: nat, slots: seq<Slot>, seen: set<nat>, items: seq<Value>, rest: seq<byte>)
    requires DescOk(d) && HasRoom(d, i, slots, items)
    requires EncodeItems(d.fields[i], items).Some? && |EncodeItems(d.fields[i], items).value| < U32
    requires EncodeUnpacked(d.fields[i], items).Some? && |EncodeUnpacked(d.fields[i], items).value| < U32
    ensures var f := d.fields[i];
            DecodeLoop(d, Progress(slots, seen, KeyBytes(f.tag, 2) + (Delimited(EncodeItems(f, items).value) + rest))) ==
            DecodeLoop(d, Progress(slots, seen, EncodeUnpacked(f, items).value + rest))
  {
    hide DecodeLoop, KeyBytes, EncodeItems, EncodeUnpacked, Delimited, HasRoom;
    PackedAppends(d, i, slots, seen, items, rest);
    UnpackedAppends(d, i, slots, seen, items, rest);
  }

  // ---------- fields that come twice ----------

  /** Which required fields have been seen before has no effect on what is decoded. */
  lemma {:induction false} SeenBefore(d: Desc, p: Progress, more: set<nat>)
    requires |p.slots| == |d.fields| && DecodeLoop(d, p).Some?
    ensures var o := DecodeLoop(d, p).value;
            DecodeLoop(d, p.(seen := p.seen + more)) == Some(o.(p := o.p.(seen := o.p.seen + more)))
    decreases |p.rest|
  {
    hide ReadVarint32, DecodeSlot, Skip, Deactivate, Find, Seen;
    if p.rest != [] {
      var k := ReadVarint32(p.rest).value;
      if k.value != 0 {
        var r := p.(rest := k.rest);
        var q := DecodeKeyed(d, k.value, r).value;
        KeyedBefore(d, k.value, r, more);
        SeenBefore(d, q, more);
      }
    }
  }

  lemma KeyedBefore(d: Desc, key: nat, p: Progress, more: set<nat>)
    requires |p.slots| == |d.fields| && DecodeKeyed(d, key, p).Some?
    ensures var q := DecodeKeyed(d, key, p).value;
            DecodeKeyed(d, key, p.(seen := p.seen + more)) == Some(q.(seen := q.seen + more))
  {
    hide DecodeSlot, Skip, Deactivate, Find;
    var i := Find(d, key / 8);
    if i < |d.fields| {
      assert (p.seen + more) + Seen(d, i) == (p.seen + Seen(d, i)) + more;
    }
  }

  /** Decoding y into what decoding x into m left is decoding x + y into m. */
  lemma PartsMerge(d: Desc, x: seq<byte>, y: seq<byte>, m: seq<Slot>)
    requires |m| == |d.fields| && ReadsOn(d, x, m) && DecodeNoinit(d, x, m).Some?
    requires DecodeNoinit(d, y, DecodeNoinit(d, x, m).value.value).Some?
    ensures DecodeNoinit(d, x + y, m) == DecodeNoinit(d, y, DecodeNoinit(d, x, m).value.value)
  {
    hide DecodeLoop;
    var p := Progress(m, {}, x);
    var q := DecodeLoop(d, p).value.p;
    LoopOfConcatenation(d, p, y);
    SeenBefore(d, Progress(q.slots, {}, y), q.seen);
    assert {} + q.seen == q.seen;
  }

  /** The field holds one message, and no other goes away when it is decoded. */
  predicate SingleMessage(f: Field) {
    f.ltype.Submessage? && f.ptr.Msg? && (f.htype.Required? || f.htype.Singular? || f.htype.Optional?)
  }

  /** The message that a slot of such a field holds. */
  predicate HoldsMessage(f: Field, slot: Slot) {
    f.ptr.Msg? && (if f.htype.Optional? then slot.Opt? else slot.One?) && slot.v.Sub? && |slot.v.slots| == |f.ptr.desc.fields|
  }

  function WithMessage(f: Field, m: seq<Slot>): Slot {
    if f.htype.Optional? then Opt(true, Sub(m)) else One(Sub(m))
  }

  /** One occurrence decodes into the message that is there. */
  lemma MessageMeets(d: Desc, i: nat, x: seq<byte>, slots: seq<Slot>, seen: set<nat>, rest: seq<byte>)
    requires DescOk(d) && i < |d.fields| == |slots| && |x| < U32
    requires SingleMessage(d.fields[i]) && HoldsMessage(d.fields[i], slots[i])
    requires DecodeNoinit(d.fields[i].ptr.desc, x, slots[i].v.slots).Some?
    ensures var f := d.fields[i];
            var m := DecodeNoinit(f.ptr.desc, x, slots[i].v.slots).value.value;
            DecodeLoop(d, Progress(slots, seen, KeyBytes(f.tag, 2) + (Delimited(x) + rest))) ==
            DecodeLoop(d, Progress(slots[i := WithMessage(f, m)], seen + Seen(d, i), rest))
  {
    hide DecodeLoop, DecodeNoinit, KeyBytes, Delimited, ReadDelimited, Deactivate, Seen, DescOk;
    var f := d.fields[i];
    DelimitedRoundTrip(x, rest);
    NotOneof(d, i, slots);
    assert DecodeValue(f, Delimited(x) + rest, slots[i].v) ==
           Some(Read(Sub(DecodeNoinit(f.ptr.desc, x, slots[i].v.slots).value.value), rest));
    LoopMeetsField(d, i, 2, slots, seen, Delimited(x) + rest);
  }

  /** A submessage field that comes twice is the same as once with both contents behind each other: the
      second merges into the first. */
  lemma OccurrencesMerge(d: Desc, i: nat, x: seq<byte>, y: seq<byte>, slots: seq<Slot>, seen: set<nat>, rest: seq<byte>)
    requires DescOk(d) && i < |d.fields| == |slots| && |x| + |y| < U32
    requires SingleMessage(d.fields[i]) && HoldsMessage(d.fields[i], slots[i])
    requires var sub, m := d.fields[i].ptr.desc, slots[i].v.slots;
             && ReadsOn(sub, x, m) && DecodeNoinit(sub, x, m).Some?
             && DecodeNoinit(sub, y, DecodeNoinit(sub, x, m).value.value).Some?
    ensures var key := KeyBytes(d.fields[i].tag, 2);
            DecodeLoop(d, Progress(slots, seen, key + (Delimited(x) + (key + (Delimited(y) + rest))))) ==
            DecodeLoop(d, Progress(slots, seen, key + (Delimited(x + y) + rest)))
  {
    hide DecodeLoop, DecodeNoinit, KeyBytes, Delimited, Seen, DescOk, ReadsOn;
    var f, m := d.fields[i], slots[i].v.slots;
    var key := KeyBytes(f.tag, 2);
    PartsMerge(f.ptr.desc, x, y, m);
    var m1 := DecodeNoinit(f.ptr.desc, x, m).value.value;
    var m2 := DecodeNoinit(f.ptr.desc, y, m1).value.value;
    MessageMeets(d, i, x, slots, seen, key + (Delimited(y) + rest));
    var next := slots[i := WithMessage(f, m1)];
    MessageMeets(d, i, y, next, seen + Seen(d, i), rest);
    MessageMeets(d, i, x + y, slots, seen, rest);
    assert next[i := WithMessage(f, m2)] == slots[i := WithMessage(f, m2)];
    assert seen + Seen(d, i) + Seen(d, i) == seen + Seen(d, i);
  }

  // ---------- what is not sent ----------

  /** A field that proto3 does not send while it has its default: nothing is required, and a byte array of
      fixed size is always sent unless that size is 0. */
  predicate Unsent(f: Field)
    decreases f, 0
  {
    && !f.htype.Required?
    && (f.htype.Singular? ==>
          if f.ltype.Submessage? then f.ptr.Msg? && AllUnsent(f.ptr.desc)
          else f.ptr.Null? && (f.ltype.FixedLengthBytes? ==> f.dataSize == 0))
  }

  predicate AllUnsent(d: Desc)
    decreases d, 1
  {
    forall i :: 0 <= i < |d.fields| ==> Unsent(d.fields[i])
  }

  lemma {:induction false} DefaultIsUnset(f: Field)
    requires Unsent(f)
    ensures IsUnset(f, DefaultSlot(f))
    decreases f
  {
    hide AllUnsent;
    if f.htype.Singular? && f.ltype.Submessage? {
      var sub := f.ptr.desc;
      forall i | 0 <= i < |sub.fields|
        ensures IsUnset(sub.fields[i], DefaultSlot(sub.fields[i]))
      {
        UnsentField(sub, i);
        DefaultIsUnset(sub.fields[i]);
      }
    }
  }

  lemma UnsentField(d: Desc, i: nat)
    requires AllUnsent(d) && i < |d.fields|
    ensures Unsent(d.fields[i])
  {
  }

  lemma {:induction false} DefaultsFrom(d: Desc, i: nat)
    requires AllUnsent(d) && i <= |d.fields|
    ensures EncodeFrom(d, Defaults(d), i) == Some([])
    decreases |d.fields| - i
  {
    hide IsZero, DefaultValue;
    if i < |d.fields| {
      DefaultIsUnset(d.fields[i]);
      DefaultsFrom(d, i + 1);
      var nothing: seq<byte> := [];
      assert nothing + nothing == nothing;
      assert EncodeSlot(d.fields[i], Defaults(d)[i]) == Some(nothing);
    }
  }

  /** A message that holds its defaults, nested messages included, is no bytes at all, and no bytes at all
      are such a message. */
  lemma DefaultsAreNothing(d: Desc)
    requires AllUnsent(d)
    ensures EncodeMessage(d, Defaults(d)) == Some([]) && Decode(d, []) == Some(Read(Defaults(d), []))
  {
    DefaultsFrom(d, 0);
    NoneRequired(d, |d.fields|);
    assert DecodeLoop(d, Progress(Defaults(d), {}, [])) == Some(Outcome(Progress(Defaults(d), {}, []), false));
  }

  lemma {:induction false} NoneRequired(d: Desc, i: nat)
    requires AllUnsent(d) && i <= |d.fields|
    ensures RequiredIndex(d, i) == 0
    decreases i
  {
    if i > 0 {
      NoneRequired(d, i - 1);
    }
  }

  /** A length of 0 stands for the empty value that a field without a default of its own starts from. */
  lemma EmptyIsDefault(f: Field, rest: seq<byte>)
    requires f.ptr.Null? && (f.ltype.Bytes? || f.ltype.String? || f.ltype.FixedLengthBytes?)
    requires f.ltype.Bytes? ==> f.dataSize >= 4
    requires f.ltype.String? ==> f.dataSize >= 1
    ensures DecodeScalar(f, Delimited([]) + rest) == Some(Read(DefaultValue(f), rest))
  {
    hide ReadDelimited, Delimited;
    DelimitedRoundTrip([], rest);
  }
}
