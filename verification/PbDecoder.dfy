/** pb_decode.c: an input stream over a byte buffer, the readers of the wire format, and the
    decoders that fill a message in place. */
module PbDecoder {
  import opened Options
  import opened Words
  import opened PbWire
  import opened PbMessage
  import opened PbIter
  import opened PbSeen

  class IStream {
    const data: seq<byte>
    /** Where `state` points. */
    var pos: nat
    var bytesLeft: nat

    predicate Valid()
      reads this
    {
      pos + bytesLeft <= |data|
    }

    /** The bytes left to read. */
    function Left(): seq<byte>
      requires Valid()
      reads this
    {
      data[pos..pos + bytesLeft]
    }

    function End(): nat
      reads this
    {
      pos + bytesLeft
    }

    /** pb_istream_from_buffer. */
    constructor (data: seq<byte>, pos: nat, size: nat)
      requires pos + size <= |data|
      ensures Valid() && this.data == data && this.pos == pos && bytesLeft == size
    {
      this.data, this.pos, bytesLeft := data, pos, size;
    }

    /** pb_readbyte. */
    method ReadByte() returns (ok: bool, b: byte)
      requires Valid()
      modifies this
      ensures Valid() && End() == old(End())
      ensures ok <==> old(Left()) != []
      ensures ok ==> b == old(Left())[0] && Left() == old(Left())[1..]
      ensures !ok ==> Left() == []
    {
      if bytesLeft == 0 {
        return false, 0;
      }
      ok, b := true, data[pos];
      pos, bytesLeft := pos + 1, bytesLeft - 1;
    }

    /** pb_read and buf_read. */
    method Read(n: nat) returns (ok: bool, b: seq<byte>)
      requires Valid()
      modifies this
      ensures Valid() && End() == old(End())
      ensures ok <==> ReadBytes(old(Left()), n).Some?
      ensures ok ==> PbWire.Read(b, Left()) == ReadBytes(old(Left()), n).value
    {
      if bytesLeft < n {
        return false, [];
      }
      ok, b := true, data[pos..pos + n];
      assert b == Left()[..n];
      pos, bytesLeft := pos + n, bytesLeft - n;
      assert Left() == old(Left())[n..];
    }

    /** pb_decode_varint. */
    method DecodeVarint() returns (ok: bool, value: nat)
      requires Valid()
      modifies this
      ensures Valid() && End() == old(End())
      ensures ok <==> ReadVarint(old(Left())).Some?
      ensures ok ==> PbWire.Read(value, Left()) == ReadVarint(old(Left())).value
    {
      hide Or, ShiftLeft;
      ok, value := true, 0;
      var bitpos: nat := 0;
      var more := true;
      while more
        invariant Valid() && End() == old(End())
        invariant ReadVarint(old(Left())) ==
                  if more then VarintLoop(Left(), bitpos, value) else Some(PbWire.Read(value, Left()))
        decreases bytesLeft + if more then 1 else 0
      {
        if bitpos >= 64 {
          return false, 0;
        }
        var b;
        ok, b := ReadByte();
        if !ok {
          return;
        }
        value := Or(value, ShiftLeft(64, b as nat % 0x80, bitpos));
        bitpos := bitpos + 7;
        more := b >= 0x80;
      }
    }

    /** pb_decode_varint32_eof: also tells whether the stream was at its end to begin with. */
    method DecodeVarint32() returns (ok: bool, value: nat, eof: bool)
      requires Valid()
      modifies this
      ensures Valid() && End() == old(End())
      ensures ok <==> ReadVarint32(old(Left())).Some?
      ensures ok ==> PbWire.Read(value, Left()) == ReadVarint32(old(Left())).value
      ensures eof <==> old(Left()) == []
    {
      hide Or, ShiftLeft;
      value, eof := 0, false;
      var b;
      ok, b := ReadByte();
      if !ok {
        eof := true;
        return;
      }
      if b < 0x80 {
        value := b as nat;
        return;
      }
      value := b as nat % 0x80;
      var bitpos: nat := 7;
      while b >= 0x80
        invariant Valid() && End() == old(End()) && bitpos < 0x100
        invariant b >= 0x80 ==> ReadVarint32(old(Left())) == Varint32Loop(Left(), bitpos, value)
        invariant b < 0x80 ==> ReadVarint32(old(Left())) ==
                               if bitpos == 35 && b as nat / 0x10 % 8 != 0 then None else Some(PbWire.Read(value, Left()))
        decreases bytesLeft + if b >= 0x80 then 1 else 0
      {
        ok, b := ReadByte();
        if !ok {
          return;
        }
        if bitpos >= 32 {
          var signExtension := if bitpos < 63 then 0xff else 0x01;
          if b as nat % 0x80 != 0 && (value / 0x8000_0000 == 0 || b != signExtension) {
            return false, 0, false;
          }
        } else {
          value := Or(value, ShiftLeft(32, b as nat % 0x80, bitpos));
        }
        bitpos := (bitpos + 7) % 0x100;
      }
      ok := !(bitpos == 35 && b as nat / 0x10 % 8 != 0);
    }

    /** pb_skip_varint. */
    method SkipVarintBytes() returns (ok: bool)
      requires Valid()
      modifies this
      ensures Valid() && End() == old(End())
      ensures ok <==> SkipVarint(old(Left())).Some?
      ensures ok ==> Left() == SkipVarint(old(Left())).value
    {
      var b := 0x80;
      ok := true;
      while b >= 0x80
        invariant Valid() && End() == old(End())
        invariant SkipVarint(old(Left())) == if b >= 0x80 then SkipVarint(Left()) else Some(Left())
        decreases bytesLeft + if b >= 0x80 then 1 else 0
      {
        ok, b := ReadByte();
        if !ok {
          return;
        }
      }
      ok := true;
    }

    /** pb_decode_tag. A key of zero counts as the end of the stream. */
    method DecodeTag() returns (ok: bool, wire: nat, tag: nat, eof: bool)
      requires Valid()
      modifies this
      ensures Valid() && End() == old(End())
      ensures var r := ReadVarint32(old(Left()));
              && (ok <==> r.Some? && r.value.value != 0)
              && (ok ==> tag == r.value.value / 8 && wire == r.value.value % 8)
              && (eof <==> old(Left()) == [] || (r.Some? && r.value.value == 0))
              && (r.Some? ==> Left() == r.value.rest)
    {
      hide ReadVarint32;
      var key;
      wire, tag := 0, 0;
      ok, key, eof := DecodeVarint32();
      if !ok {
        return;
      }
      if key == 0 {
        return false, 0, 0, true;
      }
      tag, wire := key / 8, key % 8;
    }

    /** pb_make_string_substream. The parent gives up the bytes but keeps its position. */
    method MakeSubstream() returns (ok: bool, sub: IStream)
      requires Valid()
      modifies this
      ensures Valid()
      ensures ok <==> ReadDelimited(old(Left())).Some?
      ensures ok ==> fresh(sub) && sub.Valid() && sub.data == data && sub.Left() == ReadDelimited(old(Left())).value.value
      ensures ok ==> pos == sub.pos && sub.bytesLeft + bytesLeft + pos == old(End())
      ensures ok ==> data[pos + sub.bytesLeft..old(End())] == ReadDelimited(old(Left())).value.rest
    {
      hide ReadVarint32;
      var size, eof;
      ok, size, eof := DecodeVarint32();
      sub := new IStream(data, 0, 0);
      if !ok {
        return;
      }
      if bytesLeft < size {
        return false, sub;
      }
      sub := new IStream(data, pos, size);
      bytesLeft := bytesLeft - size;
    }

    /** pb_close_string_substream: skip what is left of the substream and go on after it. */
    method CloseSubstream(sub: IStream)
      requires Valid() && sub.Valid() && sub.data == data && sub.End() + bytesLeft <= |data| && sub != this
      modifies this, sub
      ensures Valid() && pos == old(sub.End()) && bytesLeft == old(bytesLeft)
    {
      if sub.bytesLeft > 0 {
        var ok, skipped := sub.Read(sub.bytesLeft);
      }
      pos := sub.pos;
    }

    /** pb_skip_field. */
    method SkipField(wire: nat) returns (ok: bool)
      requires Valid()
      modifies this
      ensures Valid() && (ok ==> End() == old(End()))
      ensures ok <==> Skip(wire, old(Left())).Some?
      ensures ok ==> Left() == Skip(wire, old(Left())).value
    {
      hide ReadVarint32, SkipVarint;
      var skipped, size, eof;
      match wire
      case 0 => ok := SkipVarintBytes();
      case 1 => ok, skipped := Read(8);
      case 2 =>
        ok, size, eof := DecodeVarint32();
        if ok {
          ok, skipped := Read(size);
        }
      case 5 => ok, skipped := Read(4);
      case _ => ok := false;
    }

    /** pb_dec_varint, pb_dec_uvarint and pb_dec_svarint. */
    method DecodeNumber(f: Field) returns (ok: bool, v: Value)
      requires Valid() && (f.ltype.Varint? || f.ltype.UVarint? || f.ltype.SVarint?)
      modifies this
      ensures Valid() && End() == old(End())
      ensures ok <==> DecodeScalar(f, old(Left())).Some?
      ensures ok ==> PbWire.Read(v, Left()) == DecodeScalar(f, old(Left())).value
    {
      hide ReadVarint;
      v := Num(0);
      var word;
      ok, word := DecodeVarint();
      if !ok {
        return;
      }
      match f.ltype
      case Varint =>
        var n := if f.dataSize == 8 then AsSigned(word, Half(8)) else AsSigned(word % U32, Half(4));
        ok, v := SignedFits(n, f.dataSize), Num(n);
      case UVarint => ok, v := UnsignedFits(word, f.dataSize), Num(word);
      case SVarint => ok, v := SignedFits(UnZigZag(word), f.dataSize), Num(UnZigZag(word));
    }

    /** pb_decode_fixed32 and pb_decode_fixed64. */
    method DecodeFixed(f: Field) returns (ok: bool, v: Value)
      requires Valid() && (f.ltype.Fixed32? || f.ltype.Fixed64?)
      modifies this
      ensures Valid() && End() == old(End())
      ensures ok <==> DecodeScalar(f, old(Left())).Some?
      ensures ok ==> PbWire.Read(v, Left()) == DecodeScalar(f, old(Left())).value
    {
      hide FixedValue;
      var bytes;
      ok, bytes := Read(if f.ltype.Fixed32? then 4 else 8);
      v := Num(FixedValue(bytes));
    }

    /** pb_dec_bytes, pb_dec_string and pb_dec_fixed_length_bytes. */
    method DecodeBlob(f: Field) returns (ok: bool, v: Value)
      requires Valid() && (f.ltype.Bytes? || f.ltype.String? || f.ltype.FixedLengthBytes?)
      modifies this
      ensures Valid() && End() == old(End())
      ensures ok <==> DecodeScalar(f, old(Left())).Some?
      ensures ok ==> PbWire.Read(v, Left()) == DecodeScalar(f, old(Left())).value
    {
      hide ReadVarint32, Zeros;
      v := Num(0);
      var size, eof, bytes;
      ok, size, eof := DecodeVarint32();
      if !ok {
        return;
      }
      match f.ltype {
        case Bytes => ok := size + 4 <= f.dataSize;
        case String => ok := size + 1 < U32 && size + 1 <= f.dataSize;
        case FixedLengthBytes =>
          if size == 0 {
            v := Blob(Zeros(f.dataSize));
            return;
          }
          ok := size == f.dataSize;
      }
      if ok {
        ok, bytes := Read(size);
        v := Blob(bytes);
      }
    }

    /** The field decoders of every type but submessage. */
    method DecodeScalarValue(f: Field) returns (ok: bool, v: Value)
      requires Valid() && !f.ltype.Submessage?
      modifies this
      ensures Valid() && End() == old(End())
      ensures ok <==> DecodeScalar(f, old(Left())).Some?
      ensures ok ==> PbWire.Read(v, Left()) == DecodeScalar(f, old(Left())).value
    {
      hide DecodeScalar;
      match f.ltype
      case Varint | UVarint | SVarint => ok, v := DecodeNumber(f);
      case Fixed32 | Fixed64 => ok, v := DecodeFixed(f);
      case Bytes | String | FixedLengthBytes => ok, v := DecodeBlob(f);
    }

    /** pb_dec_submessage, over the nested message `current`. */
    method DecodeSubmessage(f: Field, current: Value) returns (ok: bool, v: Value)
      requires Valid() && f.ltype.Submessage? && (f.ptr.Msg? ==> AllGoodTags(f.ptr.desc))
      modifies this
      ensures Valid() && (ok ==> End() == old(End()))
      ensures ok <==> DecodeValue(f, old(Left()), current).Some?
      ensures ok ==> PbWire.Read(v, Left()) == DecodeValue(f, old(Left()), current).value
      decreases f, 0
    {
      hide ReadDelimited, PbMessage.DecodeNoinit, AllGoodTags;
      v := current;
      var sub;
      ok, sub := MakeSubstream();
      if !ok {
        return;
      }
      if !f.ptr.Msg? {
        return false, current;
      }
      var d := f.ptr.desc;
      var dest: array<Slot>;
      if f.htype.Repeated? {
        dest := new Slot[|d.fields|](i requires 0 <= i < |d.fields| => DefaultSlot(d.fields[i]));
        SetToDefaults(d, dest);
      } else if !current.Sub? || |current.slots| != |d.fields| {
        return false, current;
      } else {
        dest := new Slot[|d.fields|](i requires 0 <= i < |d.fields| => current.slots[i]);
        assert dest[..] == current.slots;
      }
      ok := sub.DecodeNoinit(d, dest);
      if ok {
        CloseSubstream(sub);
        v := Sub(dest[..]);
      }
    }

    /** pb_message_set_to_defaults. */
    static method SetToDefaults(d: Desc, dest: array<Slot>)
      requires dest.Length == |d.fields|
      modifies dest
      ensures dest[..] == Defaults(d)
    {
      hide DefaultSlot, FieldIter.Valid;
      var iter := new FieldIter(d);
      if d.fields == [] {
        return;
      }
      var more := true;
      while more
        invariant iter.Valid() && iter.d == d && fresh(iter) && iter.pos < dest.Length
        invariant forall j :: 0 <= j < (if more then iter.pos else dest.Length) ==> dest[j] == DefaultSlot(d.fields[j])
        decreases if more then dest.Length - iter.pos else 0
      {
        dest[iter.pos] := DefaultSlot(d.fields[iter.pos]);
        more := iter.Next();
      }
    }

    /** The field decoder for a field's data. */
    method DecodeFieldValue(f: Field, current: Value) returns (ok: bool, v: Value)
      requires Valid() && (f.ptr.Msg? ==> AllGoodTags(f.ptr.desc))
      modifies this
      ensures Valid() && (ok ==> End() == old(End()))
      ensures ok <==> DecodeValue(f, old(Left()), current).Some?
      ensures ok ==> PbWire.Read(v, Left()) == DecodeValue(f, old(Left()), current).value
      decreases f, 1
    {
      hide DecodeScalar, ReadDelimited, PbMessage.DecodeNoinit, AllGoodTags;
      if f.ltype.Submessage? {
        ok, v := DecodeSubmessage(f, current);
      } else {
        ok, v := DecodeScalarValue(f);
      }
    }

    /** The packed branch of decode_static_field. */
    method DecodePackedArray(f: Field, items: seq<Value>) returns (ok: bool, all: seq<Value>)
      requires Valid() && Packable(f.ltype)
      modifies this
      ensures Valid() && (ok ==> End() == old(End()))
      ensures var r := ReadDelimited(old(Left()));
              && (ok <==> r.Some? && DecodePacked(f, r.value.value, items).Some?)
              && (ok ==> Left() == r.value.rest && all == DecodePacked(f, r.value.value, items).value)
    {
      hide ReadDelimited, DecodeScalar, DefaultValue;
      all := items;
      var sub;
      ok, sub := MakeSubstream();
      if !ok {
        return;
      }
      ghost var body, start, left := sub.Left(), sub.End(), bytesLeft;
      var status := true;
      while sub.bytesLeft > 0 && |all| < f.arraySize
        invariant sub.Valid() && fresh(sub) && sub != this && sub.End() == start && sub.data == data
        invariant Valid() && bytesLeft == left
        invariant DecodePacked(f, body, items) == DecodePacked(f, sub.Left(), all)
        decreases sub.bytesLeft
      {
        var v;
        status, v := sub.DecodeScalarValue(f);
        if !status {
          break;
        }
        all := all + [v];
      }
      if sub.bytesLeft != 0 {
        return false, all;
      }
      CloseSubstream(sub);
      ok := status;
    }

    /** Writing one member's tag to which_ makes it the only active one. */
    static method SetWhich(d: Desc, i: nat, dest: array<Slot>)
      requires i < |d.fields| == dest.Length
      modifies dest
      ensures dest[..] == Deactivate(d, i, old(dest[..]))
    {
      ghost var before := dest[..];
      var j := 0;
      while j < dest.Length
        invariant 0 <= j <= dest.Length
        invariant forall k :: 0 <= k < dest.Length ==> dest[k] == (if k < j then Deactivate(d, i, before) else before)[k]
      {
        if j != i && d.fields[i].htype.Oneof? && d.fields[j].htype == d.fields[i].htype && dest[j].Opt? {
          dest[j] := dest[j].(has := false);
        }
        j := j + 1;
      }
    }

    /** decode_static_field. */
    method DecodeStaticField(d: Desc, i: nat, wire: nat, dest: array<Slot>) returns (ok: bool)
      requires Valid() && i < |d.fields| == dest.Length && AllGoodTags(d)
      modifies this, dest
      ensures Valid() && (ok ==> End() == old(End()))
      ensures var r := DecodeSlot(d.fields[i], wire, old(Left()), old(dest[i]));
              && (ok <==> r.Some?)
              && (ok ==> Left() == r.value.rest && dest[..] == Deactivate(d, i, old(dest[..]))[i := r.value.value])
      decreases d, 1
    {
      hide DecodeValue, ReadDelimited, DecodePacked, DefaultValue, Deactivate;
      var f, slot := d.fields[i], dest[i];
      NotOneofUnchanged(d, i, dest[..]);
      var v;
      match (f.htype, slot)
      case (Required, One(cur)) =>
        ok, v := DecodeFieldValue(f, cur);
        dest[i] := One(v);
      case (Singular, One(cur)) =>
        ok, v := DecodeFieldValue(f, cur);
        dest[i] := One(v);
      case (Optional, Opt(_, cur)) =>
        ok, v := DecodeFieldValue(f, cur);
        dest[i] := Opt(true, v);
      case (Oneof(_), Opt(_, cur)) =>
        SetWhich(d, i, dest);
        ok, v := DecodeFieldValue(f, if f.ltype.Submessage? then DefaultValue(f) else cur);
        dest[i] := Opt(true, v);
      case (Repeated, Many(items)) =>
        if wire == 2 && Packable(f.ltype) {
          var all;
          ok, all := DecodePackedArray(f, items);
          dest[i] := Many(all);
        } else if |items| >= f.arraySize {
          ok := false;
        } else {
          ok, v := DecodeFieldValue(f, DefaultValue(f));
          dest[i] := Many(items + [v]);
        }
      case (_, _) => ok := false;
    }

    /** The required fields of the message, counted by running the iterator to the end. */
    method CountRequired(iter: FieldIter) returns (count: nat)
      requires iter.Valid() && GoodTags(iter.d)
      modifies iter
      ensures iter.Valid() && count == RequiredIndex(iter.d, |iter.d.fields|)
    {
      hide DataAt, SizeAt;
      count := iter.requiredIndex;
      var last := EntryAt(iter.d, iter.pos);
      var more := iter.Next();
      while more
        invariant iter.Valid()
        invariant more ==> iter.pos > 0 && count == RequiredIndex(iter.d, iter.pos - 1) && last == EntryAt(iter.d, iter.pos - 1)
        invariant !more && iter.d.fields != [] ==>
                    iter.pos == 0 && count == RequiredIndex(iter.d, |iter.d.fields| - 1) && last == EntryAt(iter.d, |iter.d.fields| - 1)
        invariant iter.d.fields == [] ==> !more && count == 0
        decreases if more then |iter.d.fields| - iter.pos else 0
      {
        count := iter.requiredIndex;
        last := EntryAt(iter.d, iter.pos);
        more := iter.Next();
      }
      if last.htype.Required? && EntryAt(iter.d, iter.pos).tag != 0 {
        count := count + 1;
      }
    }

    /** One turn of pb_decode_noinit's loop: eof tells that the key was zero. */
    method DecodeNext(d: Desc, iter: FieldIter, seen: FieldsSeen, dest: array<Slot>) returns (ok: bool, eof: bool)
      requires Valid() && bytesLeft > 0 && iter.Valid() && iter.d == d && seen.Valid()
      requires dest.Length == |d.fields| && AllGoodTags(d)
      modifies this, dest, iter, seen.words
      ensures Valid() && iter.Valid() && seen.Valid() && (ok ==> End() == old(End()))
      ensures eof ==> ok && var r := ReadVarint32(old(Left()));
                r.Some? && r.value.value == 0 && Left() == r.value.rest
                && dest[..] == old(dest[..]) && seen.Contents() == old(seen.Contents())
      ensures ok && !eof ==> var r := ReadVarint32(old(Left()));
                r.Some? && r.value.value != 0
                && DecodeKeyed(d, r.value.value, Progress(old(dest[..]), old(seen.Contents()), r.value.rest)) ==
                   Some(Progress(dest[..], seen.Contents(), Left()))
      ensures !ok ==> var r := ReadVarint32(old(Left()));
                r.None? || (r.value.value != 0
                && DecodeKeyed(d, r.value.value, Progress(old(dest[..]), old(seen.Contents()), r.value.rest)).None?)
      decreases d, 2
    {
      hide ReadVarint32, DecodeSlot, Skip, Deactivate, DataAt, SizeAt, AllGoodTags, RequiredIndex;
      var wire, tag, found;
      ok, wire, tag, eof := DecodeTag();
      if !ok {
        return eof, eof;
      }
      GoodTagsHere(d);
      found := iter.Find(tag);
      if !found {
        ok := SkipField(wire);
        return ok, false;
      }
      if iter.pos >= |d.fields| {
        // the terminator's size 0 is refused
        return false, false;
      }
      if d.fields[iter.pos].htype.Required? && iter.requiredIndex < MAX_REQUIRED {
        seen.Mark(iter.requiredIndex);
      }
      assert old(seen.Contents()) + Seen(d, iter.pos) == seen.Contents();
      ok := DecodeStaticField(d, iter.pos, wire, dest);
      eof := false;
    }

    /** pb_decode_noinit, into the message dest holds. */
    method DecodeNoinit(d: Desc, dest: array<Slot>) returns (ok: bool)
      requires Valid() && dest.Length == |d.fields| && AllGoodTags(d)
      modifies this, dest
      ensures Valid() && (ok ==> End() == old(End()))
      ensures ok <==> PbMessage.DecodeNoinit(d, old(Left()), old(dest[..])).Some?
      ensures ok ==> PbWire.Read(dest[..], Left()) == PbMessage.DecodeNoinit(d, old(Left()), old(dest[..])).value
      decreases d, 3
    {
      hide ReadVarint32, DecodeKeyed, DataAt, SizeAt, AllGoodTags, RequiredIndex;
      var seen := new FieldsSeen();
      var iter := new FieldIter(d);
      ghost var whole := DecodeLoop(d, Progress(dest[..], {}, Left()));
      var eof := false;
      while bytesLeft > 0 && !eof
        invariant Valid() && End() == old(End()) && iter.Valid() && iter.d == d && seen.Valid()
        invariant fresh(iter) && fresh(seen) && fresh(seen.words)
        invariant whole == if eof then Some(Outcome(Progress(dest[..], seen.Contents(), Left()), true))
                           else DecodeLoop(d, Progress(dest[..], seen.Contents(), Left()))
        invariant forall k :: k in seen.Contents() ==> k < RequiredIndex(d, |d.fields|)
        decreases bytesLeft
      {
        ghost var p := Progress(dest[..], seen.Contents(), Left());
        ok, eof := DecodeNext(d, iter, seen, dest);
        if !ok {
          return;
        }
        if !eof {
          SeenIsRequired(d, ReadVarint32(p.rest).value.value, p.(rest := ReadVarint32(p.rest).value.rest));
        }
      }
      GoodTagsHere(d);
      var count := CountRequired(iter);
      if count > MAX_REQUIRED {
        count := MAX_REQUIRED;
      }
      assert whole == Some(Outcome(Progress(dest[..], seen.Contents(), Left()), eof));
      ok := seen.AllPresent(count);
      assert ok <==> AllSeen(d, seen.Contents());
    }

    /** pb_decode. */
    method Decode(d: Desc, dest: array<Slot>) returns (ok: bool)
      requires Valid() && dest.Length == |d.fields| && AllGoodTags(d)
      modifies this, dest
      ensures Valid()
      ensures ok <==> PbMessage.Decode(d, old(Left())).Some?
      ensures ok ==> PbWire.Read(dest[..], Left()) == PbMessage.Decode(d, old(Left())).value
    {
      hide PbMessage.DecodeNoinit, AllGoodTags, Defaults;
      SetToDefaults(d, dest);
      ok := DecodeNoinit(d, dest);
    }
  }

  lemma NotOneofUnchanged(d: Desc, i: nat, slots: seq<Slot>)
    requires i < |d.fields| == |slots|
    ensures !d.fields[i].htype.Oneof? ==> Deactivate(d, i, slots) == slots
    ensures Deactivate(d, i, slots)[i] == slots[i]
  {
  }

  lemma GoodTagsHere(d: Desc)
    requires AllGoodTags(d)
    ensures GoodTags(d)
  {
  }

  /** Only numbers of required fields are ever seen. */
  lemma SeenIsRequired(d: Desc, key: nat, p: Progress)
    requires |p.slots| == |d.fields| && DecodeKeyed(d, key, p).Some?
    requires forall k :: k in p.seen ==> k < RequiredIndex(d, |d.fields|)
    ensures forall k :: k in DecodeKeyed(d, key, p).value.seen ==> k < RequiredIndex(d, |d.fields|)
  {
    hide DecodeSlot, Skip, Deactivate;
    var i := Find(d, key / 8);
    if i < |d.fields| && d.fields[i].htype.Required? {
      RequiredIndexBelow(d, i, |d.fields|);
    }
  }

  lemma {:induction false} RequiredIndexBelow(d: Desc, i: nat, n: nat)
    requires i < n <= |d.fields| && d.fields[i].htype.Required?
    ensures RequiredIndex(d, i) < RequiredIndex(d, n)
    decreases n
  {
    if i + 1 < n {
      RequiredIndexBelow(d, i, n - 1);
    }
  }
}
