/** What holds of every message that decodes, whatever the bytes: it fits its memory, no oneof has two
    active members, its required fields were there, and it survives being encoded again. */
module PbDecoded {
  import opened Options
  import opened Words
  import opened PbWire
  import opened PbMessage
  import opened PbMerge
  import opened PbRoundTrip

  // ---------- oneofs ----------

  /** At most one member of each oneof is active, at every nesting depth. */
  predicate Exclusive(d: Desc, slots: seq<Slot>)
    decreases d, 2
  {
    && |slots| == |d.fields| && OneActive(d, slots)
    && forall i :: 0 <= i < |slots| ==> ExclusiveSlot(d.fields[i], slots[i])
  }

  predicate ExclusiveSlot(f: Field, slot: Slot)
    decreases f, 1
  {
    match slot
    case One(v) => ExclusiveValue(f, v)
    case Opt(_, v) => ExclusiveValue(f, v)
    case Many(items) => forall k :: 0 <= k < |items| ==> ExclusiveValue(f, items[k])
  }

  predicate ExclusiveValue(f: Field, v: Value)
    decreases f, 0
  {
    f.ltype.Submessage? && f.ptr.Msg? && v.Sub? && |v.slots| == |f.ptr.desc.fields| ==> Exclusive(f.ptr.desc, v.slots)
  }

  lemma {:induction false} DefaultsExclusive(d: Desc)
    ensures Exclusive(d, Defaults(d))
    decreases d
  {
    hide DefaultValue;
    forall i | 0 <= i < |d.fields|
      ensures ExclusiveSlot(d.fields[i], DefaultSlot(d.fields[i]))
    {
      DefaultExclusive(d.fields[i]);
    }
  }

  lemma {:induction false} DefaultExclusive(f: Field)
    ensures ExclusiveValue(f, DefaultValue(f))
    decreases f
  {
    hide Defaults;
    if f.ltype.Submessage? && f.ptr.Msg? {
      DefaultsExclusive(f.ptr.desc);
    }
  }

  lemma {:induction false} ValueExclusive(f: Field, s: seq<byte>, current: Value)
    requires ExclusiveValue(f, current) && DecodeValue(f, s, current).Some?
    ensures ExclusiveValue(f, DecodeValue(f, s, current).value.value)
    decreases f, |s|, 0
  {
    hide DecodeNoinit, ReadDelimited, Defaults, DecodeScalar, Exclusive;
    if f.ltype.Submessage? {
      var body, sub := ReadDelimited(s).value.value, f.ptr.desc;
      DefaultsExclusive(sub);
      NoinitExclusive(sub, body, if f.htype.Repeated? then Defaults(sub) else current.slots);
    }
  }

  lemma {:induction false} SlotExclusive(f: Field, wire: nat, s: seq<byte>, slot: Slot)
    requires ExclusiveSlot(f, slot) && DecodeSlot(f, wire, s, slot).Some?
    ensures ExclusiveSlot(f, DecodeSlot(f, wire, s, slot).value.value)
    decreases f, |s|, 1
  {
    hide DecodeValue, DecodePacked, ReadDelimited, DefaultValue, ExclusiveValue;
    DefaultExclusive(f);
    match (f.htype, slot)
    case (Required, One(v)) => ValueExclusive(f, s, v);
    case (Singular, One(v)) => ValueExclusive(f, s, v);
    case (Optional, Opt(_, v)) => ValueExclusive(f, s, v);
    case (Oneof(_), Opt(_, v)) => ValueExclusive(f, s, if f.ltype.Submessage? then DefaultValue(f) else v);
    case (Repeated, Many(items)) =>
      if wire == 2 && Packable(f.ltype) {
        ScalarsExclusive(f);
      } else {
        ValueExclusive(f, s, DefaultValue(f));
      }
    case (_, _) =>
  }

  lemma ScalarsExclusive(f: Field)
    requires Packable(f.ltype)
    ensures forall v :: ExclusiveValue(f, v)
  {
  }

  /** Making one member of a oneof active leaves no other so. */
  lemma StoredExclusive(d: Desc, i: nat, slots: seq<Slot>, slot: Slot)
    requires i < |d.fields| && Exclusive(d, slots) && ExclusiveSlot(d.fields[i], slot)
    requires Active(slot) && !Active(slots[i]) ==> d.fields[i].htype.Oneof? || d.fields[i].htype.Optional?
    ensures Exclusive(d, Deactivate(d, i, slots)[i := slot])
  {
    hide ExclusiveValue;
    var after := Deactivate(d, i, slots)[i := slot];
    forall j | 0 <= j < |after|
      ensures ExclusiveSlot(d.fields[j], after[j])
    {
      assert ExclusiveSlot(d.fields[j], slots[j]);
    }
  }

  lemma {:induction false} LoopExclusive(d: Desc, p: Progress)
    requires Exclusive(d, p.slots) && DecodeLoop(d, p).Some?
    ensures Exclusive(d, DecodeLoop(d, p).value.p.slots)
    decreases d, |p.rest|, 2
  {
    assert |p.slots| == |d.fields|;
    hide ReadVarint32, DecodeKeyed, Exclusive;
    if p.rest != [] {
      var k := ReadVarint32(p.rest).value;
      if k.value != 0 {
        KeyedExclusive(d, k.value, p.(rest := k.rest));
        LoopExclusive(d, DecodeKeyed(d, k.value, p.(rest := k.rest)).value);
      }
    }
  }

  lemma {:induction false} KeyedExclusive(d: Desc, key: nat, p: Progress)
    requires Exclusive(d, p.slots) && DecodeKeyed(d, key, p).Some?
    ensures Exclusive(d, DecodeKeyed(d, key, p).value.slots)
    decreases d, |p.rest|, 2
  {
    var i := Find(d, key / 8);
    hide Find, Skip, DecodeSlot, Deactivate, ExclusiveSlot, Seen;
    if i < |d.fields| {
      SlotExclusive(d.fields[i], key % 8, p.rest, p.slots[i]);
      StoredExclusive(d, i, p.slots, DecodeSlot(d.fields[i], key % 8, p.rest, p.slots[i]).value.value);
    }
  }

  lemma {:induction false} NoinitExclusive(d: Desc, s: seq<byte>, m: seq<Slot>)
    requires Exclusive(d, m) && DecodeNoinit(d, s, m).Some?
    ensures Exclusive(d, DecodeNoinit(d, s, m).value.value)
    decreases d, |s|, 3
  {
    assert |m| == |d.fields|;
    hide DecodeLoop, Exclusive;
    LoopExclusive(d, Progress(m, {}, s));
  }

  /** Whatever is decoded, at most one member of a oneof is active in the message, at every depth. */
  lemma DecodedExclusive(d: Desc, s: seq<byte>)
    requires Decode(d, s).Some?
    ensures Exclusive(d, Decode(d, s).value.value)
  {
    hide DecodeNoinit, Exclusive, Defaults;
    DefaultsExclusive(d);
    NoinitExclusive(d, s, Defaults(d));
  }

  /** And it is the one that came last. */
  lemma LastMemberWins(d: Desc, i: nat, wire: nat, s: seq<byte>, slots: seq<Slot>, seen: set<nat>)
    requires DescOk(d) && i < |d.fields| == |slots| && wire < 8 && d.fields[i].htype.Oneof? && Exclusive(d, slots)
    requires DecodeSlot(d.fields[i], wire, s, slots[i]).Some?
    ensures var q := DecodeKeyed(d, d.fields[i].tag * 8 + wire, Progress(slots, seen, s));
            && q.Some? && Active(q.value.slots[i])
            && forall j :: 0 <= j < |slots| && j != i && SameGroup(d, i, j) ==> !Active(q.value.slots[j])
  {
    hide DecodeValue, Exclusive, DecodeKeyed, DescOk;
    KeyedMeetsField(d, i, wire, slots, seen, s);
  }

  /** A message in a oneof starts from its defaults each time it comes, unlike one in a field of its own:
      what the storage held, of this member or another, has no effect. */
  lemma MemberStartsAfresh(f: Field, wire: nat, s: seq<byte>, one: Slot, other: Slot)
    requires f.htype.Oneof? && f.ltype.Submessage? && one.Opt? && other.Opt?
    ensures DecodeSlot(f, wire, s, one) == DecodeSlot(f, wire, s, other)
    ensures f.ptr.Msg? && DecodeSlot(f, wire, s, one).Some? ==>
              && ReadDelimited(s).Some?
              && var m := Decode(f.ptr.desc, ReadDelimited(s).value.value);
                 m.Some? && DecodeSlot(f, wire, s, one).value.value == Opt(true, Sub(m.value.value))
  {
    hide ReadDelimited, DecodeNoinit, Defaults;
  }

  // ---------- memory ----------

  /** The value is one that a field of this size holds: a number in range, bytes behind their size prefix, a
      string with its NUL, no more array items than there is room for, and so on inside. */
  predicate FitsValue(f: Field, v: Value)
    decreases f, 0
  {
    match f.ltype
    case Varint | SVarint => v.Num? && -(Half(f.dataSize) as int) <= v.n < Half(f.dataSize)
    case UVarint => v.Num? && 0 <= v.n < 2 * Half(f.dataSize)
    case Fixed32 => v.Num? && 0 <= v.n < U32
    case Fixed64 => v.Num? && 0 <= v.n < U64
    case Bytes => v.Blob? && |v.bytes| + 4 <= f.dataSize
    case String => v.Blob? && |v.bytes| + 1 <= f.dataSize
    case FixedLengthBytes => v.Blob? && |v.bytes| == f.dataSize
    case Submessage => f.ptr.Msg? && v.Sub? && FitsMessage(f.ptr.desc, v.slots)
  }

  predicate FitsSlot(f: Field, slot: Slot)
    decreases f, 1
  {
    match slot
    case One(v) => (f.htype.Required? || f.htype.Singular?) && FitsValue(f, v)
    case Opt(_, v) => (f.htype.Optional? || f.htype.Oneof?) && FitsValue(f, v)
    case Many(items) => f.htype.Repeated? && |items| <= f.arraySize && forall k :: 0 <= k < |items| ==> FitsValue(f, items[k])
  }

  predicate FitsMessage(d: Desc, slots: seq<Slot>)
    decreases d
  {
    |slots| == |d.fields| && forall i :: 0 <= i < |slots| ==> FitsSlot(d.fields[i], slots[i])
  }

  /** The descriptor's own defaults fit, at every depth. */
  predicate SaneField(f: Field)
    decreases f
  {
    match f.ptr
    case Msg(sub) => f.ltype.Submessage? && SaneDesc(sub)
    case Default(v) => !f.ltype.Submessage? && FitsValue(f, v)
    case Null =>
      match f.ltype
      case Varint | UVarint | SVarint => Half(f.dataSize) > 0
      case Fixed32 | Fixed64 | FixedLengthBytes => true
      case Bytes => f.dataSize >= 4
      case String => f.dataSize >= 1
      case Submessage => false
  }

  predicate SaneDesc(d: Desc)
    decreases d
  {
    forall i :: 0 <= i < |d.fields| ==> SaneField(d.fields[i])
  }

  lemma {:induction false} DefaultFits(f: Field)
    requires SaneField(f)
    ensures FitsValue(f, DefaultValue(f))
    decreases f
  {
    hide SaneDesc, Defaults, FitsMessage;
    if f.ptr.Msg? {
      DefaultsFit(f.ptr.desc);
    }
  }

  lemma {:induction false} DefaultsFit(d: Desc)
    requires SaneDesc(d)
    ensures FitsMessage(d, Defaults(d))
    decreases d
  {
    hide SaneField, FitsValue, DefaultValue;
    forall i | 0 <= i < |d.fields|
      ensures FitsSlot(d.fields[i], DefaultSlot(d.fields[i]))
    {
      DefaultFits(d.fields[i]);
    }
  }

  lemma ReadFits(b: seq<byte>)
    ensures |b| == 4 ==> FixedValue(b) < U32
    ensures |b| == 8 ==> FixedValue(b) < U64
  {
    FixedBelow(b);
    assert Pow2(32) == U32 && Pow2(64) == U64 by { Pow2Values(); }
  }

  lemma {:induction false} FixedBelow(b: seq<byte>)
    ensures FixedValue(b) < Pow2(8 * |b|)
    decreases |b|
  {
    if b != [] {
      assert Pow2(8) == 0x100;
      hide Pow2;
      FixedBelow(b[1..]);
      Pow2Splits(8, 8 * (|b| - 1));
    } else {
      Pow2OfZero();
    }
  }

  lemma ScalarFits(f: Field, s: seq<byte>)
    requires DecodeScalar(f, s).Some?
    ensures FitsValue(f, DecodeScalar(f, s).value.value)
  {
    hide ReadVarint, ReadDelimited, FixedValue, UnZigZag, AsSigned;
    if f.ltype.Fixed32? {
      ReadFits(s[..4]);
    } else if f.ltype.Fixed64? {
      ReadFits(s[..8]);
    }
  }

  lemma {:induction false} ValueFits(f: Field, s: seq<byte>, current: Value)
    requires SaneField(f) && FitsValue(f, current) && DecodeValue(f, s, current).Some?
    ensures FitsValue(f, DecodeValue(f, s, current).value.value)
    decreases f, |s|, 0
  {
    hide DecodeNoinit, ReadDelimited, Defaults, DecodeScalar, FitsMessage, SaneDesc;
    if f.ltype.Submessage? {
      var body, sub := ReadDelimited(s).value.value, f.ptr.desc;
      DefaultsFit(sub);
      NoinitFits(sub, body, if f.htype.Repeated? then Defaults(sub) else current.slots);
    } else {
      ScalarFits(f, s);
    }
  }

  lemma {:induction false} PackedFits(f: Field, s: seq<byte>, items: seq<Value>)
    requires SaneField(f) && FitsSlot(f, Many(items)) && DecodePacked(f, s, items).Some?
    ensures FitsSlot(f, Many(DecodePacked(f, s, items).value))
    decreases f, |s|, 1
  {
    hide DecodeValue, DefaultValue, FitsValue, SaneField;
    if s != [] {
      DefaultFits(f);
      ValueFits(f, s, DefaultValue(f));
      var r := DecodeValue(f, s, DefaultValue(f)).value;
      PackedFits(f, r.rest, items + [r.value]);
    }
  }

  lemma {:induction false} SlotFits(f: Field, wire: nat, s: seq<byte>, slot: Slot)
    requires SaneField(f) && FitsSlot(f, slot) && DecodeSlot(f, wire, s, slot).Some?
    ensures FitsSlot(f, DecodeSlot(f, wire, s, slot).value.value)
    decreases f, |s|, 2
  {
    hide DecodeValue, DecodePacked, ReadDelimited, DefaultValue, FitsValue, SaneField;
    DefaultFits(f);
    match (f.htype, slot)
    case (Required, One(v)) => ValueFits(f, s, v);
    case (Singular, One(v)) => ValueFits(f, s, v);
    case (Optional, Opt(_, v)) => ValueFits(f, s, v);
    case (Oneof(_), Opt(_, v)) => ValueFits(f, s, if f.ltype.Submessage? then DefaultValue(f) else v);
    case (Repeated, Many(items)) =>
      if wire == 2 && Packable(f.ltype) {
        PackedFits(f, ReadDelimited(s).value.value, items);
      } else {
        ValueFits(f, s, DefaultValue(f));
      }
    case (_, _) =>
  }

  lemma {:induction false} KeyedFits(d: Desc, key: nat, p: Progress)
    requires SaneDesc(d) && FitsMessage(d, p.slots) && DecodeKeyed(d, key, p).Some?
    ensures FitsMessage(d, DecodeKeyed(d, key, p).value.slots)
    decreases d, |p.rest|, 0
  {
    var i := Find(d, key / 8);
    hide Find, Skip, DecodeSlot, FitsValue, SaneField, Seen;
    if i < |d.fields| {
      SlotFits(d.fields[i], key % 8, p.rest, p.slots[i]);
      var slot := DecodeSlot(d.fields[i], key % 8, p.rest, p.slots[i]).value.value;
      var after := Deactivate(d, i, p.slots)[i := slot];
      forall j | 0 <= j < |after|
        ensures FitsSlot(d.fields[j], after[j])
      {
        assert FitsSlot(d.fields[j], p.slots[j]);
      }
    }
  }

  lemma {:induction false} LoopFits(d: Desc, p: Progress)
    requires SaneDesc(d) && FitsMessage(d, p.slots) && DecodeLoop(d, p).Some?
    ensures FitsMessage(d, DecodeLoop(d, p).value.p.slots)
    decreases d, |p.rest|, 1
  {
    assert |p.slots| == |d.fields|;
    hide ReadVarint32, DecodeKeyed, FitsMessage, SaneDesc;
    if p.rest != [] {
      var k := ReadVarint32(p.rest).value;
      if k.value != 0 {
        KeyedFits(d, k.value, p.(rest := k.rest));
        LoopFits(d, DecodeKeyed(d, k.value, p.(rest := k.rest)).value);
      }
    }
  }

  lemma {:induction false} NoinitFits(d: Desc, s: seq<byte>, m: seq<Slot>)
    requires SaneDesc(d) && FitsMessage(d, m) && DecodeNoinit(d, s, m).Some?
    ensures FitsMessage(d, DecodeNoinit(d, s, m).value.value)
    decreases d, |s|, 2
  {
    assert |m| == |d.fields|;
    hide DecodeLoop, FitsMessage, SaneDesc;
    LoopFits(d, Progress(m, {}, s));
  }

  /** Whatever bytes decode, the message fits its memory: numbers their width, bytes, strings and arrays the
      room they have, at every depth. */
  lemma DecodedFits(d: Desc, s: seq<byte>)
    requires SaneDesc(d) && Decode(d, s).Some?
    ensures FitsMessage(d, Decode(d, s).value.value)
  {
    hide DecodeNoinit, FitsMessage, Defaults, SaneDesc;
    DefaultsFit(d);
    NoinitFits(d, s, Defaults(d));
  }

  // ---------- encoding what was decoded ----------

  lemma {:induction false} FitsEncodes(d: Desc, m: seq<Slot>)
    requires FitsMessage(d, m)
    ensures EncodeMessage(d, m).Some?
    decreases d, |d.fields| + 1
  {
    hide EncodeFrom, FitsSlot;
    FitsEncodesFrom(d, m, 0);
  }

  lemma {:induction false} FitsEncodesFrom(d: Desc, m: seq<Slot>, i: nat)
    requires FitsMessage(d, m) && i <= |m|
    ensures EncodeFrom(d, m, i).Some?
    decreases d, |d.fields| - i
  {
    hide EncodeSlot, FitsSlot;
    if i < |m| {
      SlotEncodes(d.fields[i], m[i]);
      FitsEncodesFrom(d, m, i + 1);
    }
  }

  lemma {:induction false} ValueEncodes(f: Field, v: Value)
    requires FitsValue(f, v)
    ensures EncodeValue(f, v).Some?
    decreases f, 0
  {
    hide VarintBytes, FixedBytes, EncodeMessage, FitsMessage, ZigZag;
    if f.ltype.Submessage? {
      FitsEncodes(f.ptr.desc, v.slots);
    }
  }

  lemma {:induction false} ItemsEncode(f: Field, items: seq<Value>)
    requires forall k :: 0 <= k < |items| ==> FitsValue(f, items[k])
    ensures EncodeItems(f, items).Some? && EncodeUnpacked(f, items).Some?
    decreases f, 1, |items|
  {
    hide EncodeValue, FitsValue;
    if items != [] {
      ValueEncodes(f, items[0]);
      ItemsEncode(f, items[1..]);
    }
  }

  lemma {:induction false} SlotEncodes(f: Field, slot: Slot)
    requires FitsSlot(f, slot)
    ensures EncodeSlot(f, slot).Some?
    decreases f, 4
  {
    hide EncodeValue, FitsValue, EncodeItems, EncodeUnpacked, IsZero;
    match slot
    case One(v) => ValueEncodes(f, v);
    case Opt(_, v) => ValueEncodes(f, v);
    case Many(items) => ItemsEncode(f, items);
  }

  lemma {:induction false} FitsStorable(d: Desc, m: seq<Slot>)
    requires FitsMessage(d, m) && Exclusive(d, m)
    ensures StorableMessage(d, m)
    decreases d
  {
    hide FitsValue, ExclusiveValue, StorableValue, OneActive;
    forall i | 0 <= i < |m|
      ensures StorableSlot(d.fields[i], m[i])
    {
      var f := d.fields[i];
      assert FitsSlot(f, m[i]) && ExclusiveSlot(f, m[i]);
      match m[i]
      case One(v) => ValueStorable(f, v);
      case Opt(_, v) => ValueStorable(f, v);
      case Many(items) =>
        forall k | 0 <= k < |items|
          ensures StorableValue(f, items[k])
        {
          ValueStorable(f, items[k]);
        }
    }
  }

  lemma {:induction false} ValueStorable(f: Field, v: Value)
    requires FitsValue(f, v) && ExclusiveValue(f, v)
    ensures StorableValue(f, v)
    decreases f
  {
    hide FitsMessage, Exclusive, StorableMessage;
    if f.ltype.Submessage? {
      FitsLength(f.ptr.desc, v.slots);
      FitsStorable(f.ptr.desc, v.slots);
    } else if f.ltype.String? {
      UpToNulShort(v.bytes, f.dataSize);
    }
  }

  lemma FitsLength(d: Desc, m: seq<Slot>)
    requires FitsMessage(d, m)
    ensures |m| == |d.fields|
  {
  }

  lemma {:induction false} UpToNulShort(b: seq<byte>, max: nat)
    requires |b| < max
    ensures |UpToNul(b, max)| < max
    decreases |b|
  {
    if b != [] {
      UpToNulShort(b[1..], max - 1);
    }
  }

  /** From any bytes that decode, encoding the message and decoding that again gives the same message: what
      other writers may have written in another order, in parts, unpacked or with unknown fields comes to
      one form. */
  lemma DecodedComesBack(d: Desc, s: seq<byte>)
    requires DescOk(d) && SaneDesc(d) && Decode(d, s).Some?
    ensures EncodeMessage(d, Decode(d, s).value.value).Some?
    ensures var m := Decode(d, s).value.value;
            |EncodeMessage(d, m).value| < U32 ==>
              var r := Decode(d, EncodeMessage(d, m).value);
              r.Some? && r.value.rest == [] && SameMessage(d, m, r.value.value)
  {
    hide Decode, EncodeMessage, FitsMessage, Exclusive, StorableMessage, SameMessage, NormalMessage, DescOk, SaneDesc;
    var m := Decode(d, s).value.value;
    DecodedFits(d, s);
    DecodedExclusive(d, s);
    FitsEncodes(d, m);
    FitsStorable(d, m);
    if |EncodeMessage(d, m).value| < U32 {
      RoundTrip(d, m);
    }
  }

  // ---------- required fields ----------

  /** The positions of the fields whose keys the loop meets. */
  function Met(d: Desc, p: Progress): set<nat>
    requires |p.slots| == |d.fields|
    decreases |p.rest|
  {
    if p.rest == [] then {}
    else
      match ReadVarint32(p.rest)
      case None => {}
      case Some(Read(key, rest)) =>
        if key == 0 then {}
        else
          match DecodeKeyed(d, key, p.(rest := rest))
          case None => {}
          case Some(q) => {Find(d, key / 8)} + Met(d, q)
  }

  /** The bits of fields_seen are those of the required fields met. */
  predicate SeenMet(d: Desc, seen: set<nat>, met: set<nat>) {
    forall i :: 0 <= i < |d.fields| && d.fields[i].htype.Required? && RequiredIndex(d, i) < MAX_REQUIRED ==>
      (RequiredIndex(d, i) in seen <==> i in met)
  }

  lemma {:induction false} IndexGrows(d: Desc, i: nat, j: nat)
    requires i < j <= |d.fields|
    ensures RequiredIndex(d, i) + (if d.fields[i].htype.Required? then 1 else 0) <= RequiredIndex(d, j)
    decreases j
  {
    if i + 1 < j {
      IndexGrows(d, i, j - 1);
    }
  }

  lemma MeetsOne(d: Desc, seen: set<nat>, met: set<nat>, i: nat)
    requires SeenMet(d, seen, met) && i < |d.fields|
    ensures SeenMet(d, seen + Seen(d, i), met + {i})
  {
    forall j | 0 <= j < |d.fields| && d.fields[j].htype.Required? && RequiredIndex(d, j) < MAX_REQUIRED
      ensures RequiredIndex(d, j) in seen + Seen(d, i) <==> j in met + {i}
    {
      if i < j {
        IndexGrows(d, i, j);
      } else if j < i {
        IndexGrows(d, j, i);
      }
    }
  }

  lemma {:induction false} LoopMet(d: Desc, p: Progress, met: set<nat>)
    requires |p.slots| == |d.fields| && SeenMet(d, p.seen, met) && DecodeLoop(d, p).Some?
    ensures SeenMet(d, DecodeLoop(d, p).value.p.seen, met + Met(d, p))
    decreases |p.rest|
  {
    hide ReadVarint32, SeenMet;
    if p.rest == [] || ReadVarint32(p.rest).value.value == 0 {
      assert met + {} == met;
    } else {
      var k := ReadVarint32(p.rest).value;
      var i, q := Find(d, k.value / 8), DecodeKeyed(d, k.value, p.(rest := k.rest)).value;
      KeyedMet(d, k.value, p.(rest := k.rest), met);
      LoopMet(d, q, met + {i});
      assert met + {i} + Met(d, q) == met + ({i} + Met(d, q));
    }
  }

  lemma KeyedMet(d: Desc, key: nat, p: Progress, met: set<nat>)
    requires |p.slots| == |d.fields| && SeenMet(d, p.seen, met) && DecodeKeyed(d, key, p).Some?
    ensures SeenMet(d, DecodeKeyed(d, key, p).value.seen, met + {Find(d, key / 8)})
  {
    hide DecodeSlot, Skip, Deactivate, Find, Seen;
    var i := Find(d, key / 8);
    if i < |d.fields| {
      MeetsOne(d, p.seen, met, i);
    }
  }

  /** Of the first 64 required fields all have been met. */
  predicate RequiredMet(d: Desc, met: set<nat>) {
    forall i :: 0 <= i < |d.fields| && d.fields[i].htype.Required? && RequiredIndex(d, i) < MAX_REQUIRED ==> i in met
  }

  lemma {:induction false} RequiredAt(d: Desc, n: nat, k: nat) returns (i: nat)
    requires n <= |d.fields| && k < RequiredIndex(d, n)
    ensures i < n && d.fields[i].htype.Required? && RequiredIndex(d, i) == k
    decreases n
  {
    if k < RequiredIndex(d, n - 1) {
      i := RequiredAt(d, n - 1, k);
    } else {
      i := n - 1;
    }
  }

  /** pb_decode_noinit succeeds exactly when every field decodes and all required fields have come, as far as
      they are counted. */
  lemma DecodesIffRequiredMet(d: Desc, s: seq<byte>, m: seq<Slot>)
    requires |m| == |d.fields|
    ensures DecodeNoinit(d, s, m).Some? <==>
              DecodeLoop(d, Progress(m, {}, s)).Some? && RequiredMet(d, Met(d, Progress(m, {}, s)))
  {
    hide DecodeLoop, Met;
    var p := Progress(m, {}, s);
    if DecodeLoop(d, p).Some? {
      LoopMet(d, p, {});
      var seen := DecodeLoop(d, p).value.p.seen;
      assert {} + Met(d, p) == Met(d, p);
      if RequiredMet(d, Met(d, p)) {
        forall k | 0 <= k < RequiredIndex(d, |d.fields|) && k < MAX_REQUIRED
          ensures k in seen
        {
          var i := RequiredAt(d, |d.fields|, k);
          assert i in Met(d, p);
        }
      }
      if AllSeen(d, seen) {
        forall i | 0 <= i < |d.fields| && d.fields[i].htype.Required? && RequiredIndex(d, i) < MAX_REQUIRED
          ensures i in Met(d, p)
        {
          IndexGrows(d, i, |d.fields|);
          assert RequiredIndex(d, i) in seen;
        }
      }
    }
  }
}
