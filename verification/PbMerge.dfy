/** Decoding a concatenation is decoding the parts in turn, and fields a message does not know do
    not matter. */
module PbMerge {
  import opened Options
  import opened Words
  import opened PbWire
  import opened PbMessage

  // ---------- what is read depends only on the bytes consumed ----------

  lemma DelimitedExtends(s: seq<byte>, t: seq<byte>)
    requires ReadDelimited(s).Some?
    ensures var r := ReadDelimited(s).value; ReadDelimited(s + t) == Some(Read(r.value, r.rest + t))
  {
    hide ReadVarint32;
    Varint32Extends(s, t);
    var r := ReadVarint32(s).value;
    BytesExtend(r.rest, r.value, t);
  }

  lemma ScalarExtends(f: Field, s: seq<byte>, t: seq<byte>)
    requires DecodeScalar(f, s).Some?
    ensures var r := DecodeScalar(f, s).value; DecodeScalar(f, s + t) == Some(Read(r.value, r.rest + t))
  {
    hide ReadVarint, ReadDelimited, NumberFromVarint, BlobFromBytes, FixedValue;
    match f.ltype
    case Varint | UVarint | SVarint => VarintExtends(s, t);
    case Fixed32 => BytesExtend(s, 4, t);
    case Fixed64 => BytesExtend(s, 8, t);
    case Bytes | String | FixedLengthBytes => DelimitedExtends(s, t);
    case Submessage =>
  }

  lemma ValueExtends(f: Field, s: seq<byte>, current: Value, t: seq<byte>)
    requires DecodeValue(f, s, current).Some?
    ensures var r := DecodeValue(f, s, current).value; DecodeValue(f, s + t, current) == Some(Read(r.value, r.rest + t))
  {
    hide ReadDelimited, DecodeScalar, DecodeNoinit, Defaults;
    if f.ltype.Submessage? {
      DelimitedExtends(s, t);
    } else {
      ScalarExtends(f, s, t);
    }
  }

  lemma SlotExtends(f: Field, wire: nat, s: seq<byte>, slot: Slot, t: seq<byte>)
    requires DecodeSlot(f, wire, s, slot).Some?
    ensures var r := DecodeSlot(f, wire, s, slot).value;
            DecodeSlot(f, wire, s + t, slot) == Some(Read(r.value, r.rest + t))
  {
    hide DecodeValue, DecodePacked, ReadDelimited, DefaultValue;
    match (f.htype, slot)
    case (Required, One(v)) => ValueExtends(f, s, v, t);
    case (Singular, One(v)) => ValueExtends(f, s, v, t);
    case (Optional, Opt(_, v)) => ValueExtends(f, s, v, t);
    case (Oneof(_), Opt(_, v)) => ValueExtends(f, s, if f.ltype.Submessage? then DefaultValue(f) else v, t);
    case (Repeated, Many(items)) =>
      if wire == 2 && Packable(f.ltype) {
        DelimitedExtends(s, t);
      } else {
        ValueExtends(f, s, DefaultValue(f), t);
      }
    case (_, _) =>
  }

  lemma {:induction false} SkipVarintExtends(s: seq<byte>, t: seq<byte>)
    requires SkipVarint(s).Some?
    ensures SkipVarint(s + t) == Some(SkipVarint(s).value + t)
  {
    assert (s + t)[1..] == s[1..] + t;
    if s[0] >= 0x80 {
      SkipVarintExtends(s[1..], t);
    }
  }

  lemma SkipExtends(wire: nat, s: seq<byte>, t: seq<byte>)
    requires Skip(wire, s).Some?
    ensures Skip(wire, s + t) == Some(Skip(wire, s).value + t)
  {
    hide SkipVarint, ReadDelimited;
    if wire == 0 {
      SkipVarintExtends(s, t);
    } else if wire == 2 {
      DelimitedExtends(s, t);
    } else {
      BytesExtend(s, if wire == 1 then 8 else 4, t);
    }
  }

  lemma KeyedExtends(d: Desc, key: nat, p: Progress, t: seq<byte>)
    requires |p.slots| == |d.fields| && DecodeKeyed(d, key, p).Some?
    ensures var q := DecodeKeyed(d, key, p).value;
            DecodeKeyed(d, key, p.(rest := p.rest + t)) == Some(q.(rest := q.rest + t))
  {
    hide DecodeSlot, Skip, Find, Seen, Deactivate;
    var i := Find(d, key / 8);
    if i < |d.fields| {
      SlotExtends(d.fields[i], key % 8, p.rest, p.slots[i], t);
    } else {
      SkipExtends(key % 8, p.rest, t);
    }
  }

  // ---------- concatenation ----------

  /** The decoding loop over a ++ b is the loop over b from the state the loop over a ends in, when
      a is read to its end, that is, without meeting a zero tag. */
  lemma {:induction false} LoopOfConcatenation(d: Desc, p: Progress, b: seq<byte>)
    requires |p.slots| == |d.fields| && DecodeLoop(d, p).Some? && !DecodeLoop(d, p).value.zeroTag
    ensures DecodeLoop(d, p.(rest := p.rest + b)) == DecodeLoop(d, DecodeLoop(d, p).value.p.(rest := b))
    decreases |p.rest|
  {
    hide ReadVarint32, DecodeKeyed;
    if p.rest == [] {
      assert p.rest + b == b;
    } else {
      Varint32Extends(p.rest, b);
      var k := ReadVarint32(p.rest).value;
      KeyedExtends(d, k.value, p.(rest := k.rest), b);
      LoopOfConcatenation(d, DecodeKeyed(d, k.value, p.(rest := k.rest)).value, b);
    }
  }

  predicate NoRequired(d: Desc) {
    forall i :: 0 <= i < |d.fields| ==> !d.fields[i].htype.Required?
  }

  lemma {:induction false} NoRequiredIndex(d: Desc, i: nat)
    requires NoRequired(d) && i <= |d.fields|
    ensures RequiredIndex(d, i) == 0
  {
    if i > 0 {
      NoRequiredIndex(d, i - 1);
    }
  }

  lemma {:induction false} NothingSeen(d: Desc, p: Progress)
    requires |p.slots| == |d.fields| && NoRequired(d) && DecodeLoop(d, p).Some?
    ensures DecodeLoop(d, p).value.p.seen == p.seen
    decreases |p.rest|
  {
    hide ReadVarint32, DecodeSlot, Skip, Deactivate, Find;
    if p.rest != [] {
      var k := ReadVarint32(p.rest).value;
      if k.value != 0 {
        var q := DecodeKeyed(d, k.value, p.(rest := k.rest)).value;
        assert q.seen == p.seen;
        NothingSeen(d, q);
      }
    }
  }

  /** pb_decode_noinit is a homomorphism: without required fields, decoding a ++ b into m is
      decoding b into what decoding a into m leaves, provided a holds no zero tag. */
  lemma DecodeOfConcatenation(d: Desc, a: seq<byte>, b: seq<byte>, m: seq<Slot>)
    requires |m| == |d.fields| && NoRequired(d)
    requires DecodeLoop(d, Progress(m, {}, a)).Some? && !DecodeLoop(d, Progress(m, {}, a)).value.zeroTag
    ensures DecodeNoinit(d, a, m).Some?
    ensures DecodeNoinit(d, a + b, m) == DecodeNoinit(d, b, DecodeNoinit(d, a, m).value.value)
  {
    hide DecodeLoop;
    LoopOfConcatenation(d, Progress(m, {}, a), b);
    NothingSeen(d, Progress(m, {}, a));
    NoRequiredIndex(d, |d.fields|);
  }

  // ---------- unknown fields ----------

  /** A well-formed field whose tag the message does not have. */
  predicate UnknownField(d: Desc, u: seq<byte>) {
    && ReadVarint32(u).Some?
    && var key := ReadVarint32(u).value.value;
       && key != 0
       && (d.fields == [] ==> key / 8 != 0)
       && (forall i :: 0 <= i < |d.fields| ==> d.fields[i].tag != key / 8)
       && Skip(key % 8, ReadVarint32(u).value.rest) == Some([])
  }

  lemma UnknownSkipped(d: Desc, u: seq<byte>, p: Progress)
    requires |p.slots| == |d.fields| && UnknownField(d, u)
    ensures DecodeLoop(d, p.(rest := u + p.rest)) == DecodeLoop(d, p)
  {
    hide ReadVarint32, Skip;
    Varint32Extends(u, p.rest);
    var k := ReadVarint32(u).value;
    SkipExtends(k.value % 8, k.rest, p.rest);
    assert Find(d, k.value / 8) == |d.fields|;
    assert [] + p.rest == p.rest;
    assert DecodeKeyed(d, k.value, p.(rest := k.rest + p.rest)) == Some(p);
  }

  /** Inserting an unknown field between two top-level fields changes nothing: neither the message,
      nor success or failure, nor the bytes left. */
  lemma UnknownFieldIgnored(d: Desc, a: seq<byte>, u: seq<byte>, b: seq<byte>, m: seq<Slot>)
    requires |m| == |d.fields| && UnknownField(d, u)
    requires DecodeLoop(d, Progress(m, {}, a)).Some? && !DecodeLoop(d, Progress(m, {}, a)).value.zeroTag
    ensures DecodeNoinit(d, a + u + b, m) == DecodeNoinit(d, a + b, m)
  {
    hide DecodeLoop;
    var p := Progress(m, {}, a);
    LoopOfConcatenation(d, p, u + b);
    LoopOfConcatenation(d, p, b);
    assert a + u + b == a + (u + b);
    UnknownSkipped(d, u, DecodeLoop(d, p).value.p.(rest := b));
  }

  /** A zero tag ends the message: nothing after it is looked at. */
  lemma ZeroTagEnds(d: Desc, a: seq<byte>, b: seq<byte>, m: seq<Slot>)
    requires |m| == |d.fields|
    requires DecodeLoop(d, Progress(m, {}, a)).Some? && !DecodeLoop(d, Progress(m, {}, a)).value.zeroTag
    ensures DecodeNoinit(d, a, m).Some? <==> DecodeNoinit(d, a + [0] + b, m).Some?
    ensures DecodeNoinit(d, a, m).Some? ==>
              DecodeNoinit(d, a + [0] + b, m) == Some(Read(DecodeNoinit(d, a, m).value.value, b))
  {
    var p := Progress(m, {}, a);
    var q := DecodeLoop(d, p).value.p;
    LoopOfConcatenation(d, p, [0] + b);
    assert a + [0] + b == a + ([0] + b);
    assert ([0] + b)[1..] == b;
    assert ReadVarint32([0] + b) == Some(Read(0, b));
    assert DecodeLoop(d, q.(rest := [0] + b)) == Some(Outcome(q.(rest := b), true));
  }
}
