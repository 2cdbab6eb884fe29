/** What nanopb's encoder writes for a message and what its decoder makes of a byte string, as
    functions of the descriptor. Static allocation only; see the README for what is left out. */
module PbMessage {
  import opened Options
  import opened Words
  import opened PbWire

  // ---------- descriptors and messages ----------

  datatype LType = Varint | UVarint | SVarint | Fixed32 | Fixed64 | Bytes | String | Submessage | FixedLengthBytes

  /** Singular is OPTIONAL without a has_ variable, the proto3 form. The members of one oneof share
      a group number, which stands for their which_ variable. */
  datatype HType = Required | Singular | Optional | Repeated | Oneof(group: nat)

  /** pb_field_s.ptr: the fields of a submessage, or a default value, or NULL. */
  datatype Ptr = Null | Default(value: Value) | Msg(desc: Desc)

  datatype Field = Field(tag: nat, ltype: LType, htype: HType, dataOffset: nat, sizeOffset: int, dataSize: nat,
                         arraySize: nat, ptr: Ptr)

  datatype Desc = Desc(fields: seq<Field>)

  /** A stored value: an integer (or the bits of a fixed-width one), bytes, or a nested message. */
  datatype Value = Num(n: int) | Blob(bytes: seq<byte>) | Sub(slots: seq<Slot>)

  /** The storage of one field: a value, a value with its has_ flag (for a oneof member: whether
      which_ names it), or the first count entries of an array. */
  datatype Slot = One(v: Value) | Opt(has: bool, v: Value) | Many(items: seq<Value>)

  /** No field has the terminator's tag 0, and no two have the same. */
  predicate GoodTags(d: Desc) {
    && (forall i :: 0 <= i < |d.fields| ==> d.fields[i].tag != 0)
    && forall i, j :: 0 <= i < j < |d.fields| ==> d.fields[i].tag != d.fields[j].tag
  }

  /** At every nesting depth. */
  predicate AllGoodTags(d: Desc)
    decreases d
  {
    && GoodTags(d)
    && forall i :: 0 <= i < |d.fields| && d.fields[i].ptr.Msg? ==> AllGoodTags(d.fields[i].ptr.desc)
  }

  predicate Packable(l: LType) {
    l.Varint? || l.UVarint? || l.SVarint? || l.Fixed32? || l.Fixed64?
  }

  function WireType(l: LType): nat {
    match l
    case Varint | UVarint | SVarint => 0
    case Fixed64 => 1
    case Fixed32 => 5
    case Bytes | String | Submessage | FixedLengthBytes => 2
  }

  /** Half the number of values an integer of `size` bytes can take; 0 for a size nanopb refuses. */
  function Half(size: nat): nat {
    match size
    case 1 => 0x80
    case 2 => 0x8000
    case 4 => 0x8000_0000
    case 8 => 0x8000_0000_0000_0000
    case _ => 0
  }

  predicate SignedFits(n: int, size: nat) {
    -(Half(size) as int) <= n < Half(size)
  }

  predicate UnsignedFits(n: int, size: nat) {
    0 <= n < 2 * Half(size)
  }

  /** A word read as a two's complement number. */
  function AsSigned(v: nat, half: nat): int {
    if v < half then v else v - 2 * half
  }

  // ---------- defaults ----------

  function Zeros(n: nat): (z: seq<byte>)
    ensures |z| == n
  {
    seq(n, i => 0)
  }

  /** pb_field_set_to_default on a field's data. */
  function DefaultValue(f: Field): Value
    decreases f, 0
  {
    match f.ptr
    case Default(v) => v
    case Msg(sub) => Sub(Defaults(sub))
    case Null =>
      match f.ltype
      case Varint | UVarint | SVarint | Fixed32 | Fixed64 => Num(0)
      case FixedLengthBytes => Blob(Zeros(f.dataSize))
      case Bytes | String => Blob([])
      case Submessage => Sub([])
  }

  function DefaultSlot(f: Field): Slot
    decreases f, 1
  {
    match f.htype
    case Required | Singular => One(DefaultValue(f))
    case Optional | Oneof(_) => Opt(false, DefaultValue(f))
    case Repeated => Many([])
  }

  /** pb_message_set_to_defaults. */
  function Defaults(d: Desc): (slots: seq<Slot>)
    ensures |slots| == |d.fields|
    ensures forall i :: 0 <= i < |slots| ==> slots[i] == DefaultSlot(d.fields[i])
    decreases d
  {
    seq(|d.fields|, i requires 0 <= i < |d.fields| => DefaultSlot(d.fields[i]))
  }

  // ---------- encoding ----------

  function KeyBytes(tag: nat, wire: nat): seq<byte> {
    VarintBytes(tag * 8 + wire)
  }

  /** pb_encode_string. */
  function Delimited(b: seq<byte>): seq<byte> {
    VarintBytes(|b|) + b
  }

  /** The bytes before the first NUL, at most max of them. */
  function UpToNul(b: seq<byte>, max: nat): (r: seq<byte>)
    ensures r <= b && |r| <= max
    ensures forall i :: 0 <= i < |r| ==> r[i] != 0
  {
    if max == 0 || b == [] || b[0] == 0 then [] else [b[0]] + UpToNul(b[1..], max - 1)
  }

  /** The field encoders of every type but submessage. A value that does not have the field's
      type, which memory cannot hold, gives None as an error does. */
  function EncodeScalar(f: Field, v: Value): Option<seq<byte>> {
    match (f.ltype, v)
    case (Varint, Num(n)) => if SignedFits(n, f.dataSize) then Some(VarintBytes(if n < 0 then n + U64 else n)) else None
    case (UVarint, Num(n)) => if UnsignedFits(n, f.dataSize) then Some(VarintBytes(n)) else None
    case (SVarint, Num(n)) => if SignedFits(n, f.dataSize) then Some(VarintBytes(ZigZag(n))) else None
    case (Fixed32, Num(n)) => if UnsignedFits(n, 4) then Some(FixedBytes(n, 4)) else None
    case (Fixed64, Num(n)) => if UnsignedFits(n, 8) then Some(FixedBytes(n, 8)) else None
    case (Bytes, Blob(b)) => if |b| + 4 <= f.dataSize then Some(Delimited(b)) else None
    case (String, Blob(b)) => if |b| <= f.dataSize then Some(Delimited(UpToNul(b, f.dataSize))) else None
    case (FixedLengthBytes, Blob(b)) => if |b| == f.dataSize then Some(Delimited(b)) else None
    case (_, _) => None
  }

  function Append(a: Option<seq<byte>>, b: Option<seq<byte>>): Option<seq<byte>> {
    if a.Some? && b.Some? then Some(a.value + b.value) else None
  }

  function EncodeValue(f: Field, v: Value): Option<seq<byte>>
    decreases f, 0
  {
    if !f.ltype.Submessage? then EncodeScalar(f, v)
    else if !f.ptr.Msg? || !v.Sub? then None
    else
      match EncodeMessage(f.ptr.desc, v.slots)
      case None => None
      case Some(e) => Some(Delimited(e))
  }

  /** The items of a packed array, one after the other. */
  function EncodeItems(f: Field, items: seq<Value>): Option<seq<byte>>
    decreases f, 1, |items|
  {
    if items == [] then Some([]) else Append(EncodeValue(f, items[0]), EncodeItems(f, items[1..]))
  }

  /** pb_encode_tag_for_field and the value. */
  function EncodeTagged(f: Field, v: Value): Option<seq<byte>>
    decreases f, 1
  {
    Append(Some(KeyBytes(f.tag, WireType(f.ltype))), EncodeValue(f, v))
  }

  /** The items of an array that cannot be packed. */
  function EncodeUnpacked(f: Field, items: seq<Value>): Option<seq<byte>>
    decreases f, 2, |items|
  {
    if items == [] then Some([]) else Append(EncodeTagged(f, items[0]), EncodeUnpacked(f, items[1..]))
  }

  /** encode_array. */
  function EncodeArray(f: Field, items: seq<Value>): Option<seq<byte>>
    decreases f, 3
  {
    if items == [] then Some([])
    else if |items| > f.arraySize then None
    else if Packable(f.ltype) then
      match EncodeItems(f, items)
      case None => None
      case Some(e) => Some(KeyBytes(f.tag, 2) + Delimited(e))
    else EncodeUnpacked(f, items)
  }

  /** pb_check_proto3_default_value on the data of a field. */
  predicate IsZero(f: Field, v: Value)
    decreases f, 0
  {
    match f.ltype
    case Bytes => v == Blob([])
    case String => v.Blob? && (v.bytes == [] || v.bytes[0] == 0)
    case FixedLengthBytes => f.dataSize == 0 && v == Blob([])
    case Submessage =>
      && f.ptr.Msg? && v.Sub? && |v.slots| == |f.ptr.desc.fields|
      && forall i :: 0 <= i < |v.slots| ==> IsUnset(f.ptr.desc.fields[i], v.slots[i])
    case Varint | UVarint | SVarint | Fixed32 | Fixed64 => v == Num(0)
  }

  /** pb_check_proto3_default_value. */
  predicate IsUnset(f: Field, slot: Slot)
    decreases f, 1
  {
    match (f.htype, slot)
    case (Singular, One(v)) => IsZero(f, v)
    case (Optional, Opt(has, _)) => !has
    case (Oneof(_), Opt(has, _)) => !has
    case (Repeated, Many(items)) => items == []
    case (_, _) => false
  }

  /** encode_basic_field. */
  function EncodeSlot(f: Field, slot: Slot): Option<seq<byte>>
    decreases f, 4
  {
    match (f.htype, slot)
    case (Required, One(v)) => EncodeTagged(f, v)
    case (Singular, One(v)) => if IsZero(f, v) then Some([]) else EncodeTagged(f, v)
    case (Optional, Opt(has, v)) => if has then EncodeTagged(f, v) else Some([])
    case (Oneof(_), Opt(has, v)) => if has then EncodeTagged(f, v) else Some([])
    case (Repeated, Many(items)) => EncodeArray(f, items)
    case (_, _) => None
  }

  /** The fields from position i on. */
  function EncodeFrom(d: Desc, slots: seq<Slot>, i: nat): Option<seq<byte>>
    requires i <= |d.fields| == |slots|
    decreases d, |d.fields| - i
  {
    if i == |d.fields| then Some([])
    else Append(EncodeSlot(d.fields[i], slots[i]), EncodeFrom(d, slots, i + 1))
  }

  /** pb_encode. */
  function EncodeMessage(d: Desc, slots: seq<Slot>): Option<seq<byte>>
    decreases d, |d.fields| + 1
  {
    if |slots| != |d.fields| then None else EncodeFrom(d, slots, 0)
  }

  // ---------- decoding ----------

  /** A length and that many bytes: what pb_make_string_substream and pb_close_string_substream
      delimit, and what pb_dec_bytes and pb_dec_string read. */
  function ReadDelimited(s: seq<byte>): (r: Option<Read<seq<byte>>>)
    ensures r.Some? ==> |r.value.rest| + |r.value.value| < |s|
  {
    match ReadVarint32(s)
    case None => None
    case Some(Read(n, rest)) => ReadBytes(rest, n)
  }

  /** pb_dec_varint, pb_dec_uvarint and pb_dec_svarint after the varint is read. */
  function NumberFromVarint(f: Field, v: nat): Option<Value> {
    match f.ltype
    case Varint =>
      var n := if f.dataSize == 8 then AsSigned(v, Half(8)) else AsSigned(v % U32, Half(4));
      if SignedFits(n, f.dataSize) then Some(Num(n)) else None
    case UVarint => if UnsignedFits(v, f.dataSize) then Some(Num(v)) else None
    case SVarint => if SignedFits(UnZigZag(v), f.dataSize) then Some(Num(UnZigZag(v))) else None
    case _ => None
  }

  /** pb_dec_bytes, pb_dec_string and pb_dec_fixed_length_bytes on the delimited bytes. */
  function BlobFromBytes(f: Field, b: seq<byte>): Option<Value> {
    match f.ltype
    case Bytes => if |b| + 4 <= f.dataSize then Some(Blob(b)) else None
    case String => if |b| + 1 < U32 && |b| + 1 <= f.dataSize then Some(Blob(b)) else None
    case FixedLengthBytes =>
      if b == [] then Some(Blob(Zeros(f.dataSize))) else if |b| == f.dataSize then Some(Blob(b)) else None
    case _ => None
  }

  function WithRest(v: Option<Value>, rest: seq<byte>): Option<Read<Value>> {
    if v.Some? then Some(Read(v.value, rest)) else None
  }

  /** The field decoders of every type but submessage. */
  function DecodeScalar(f: Field, s: seq<byte>): (r: Option<Read<Value>>)
    ensures r.Some? ==> |r.value.rest| < |s|
  {
    match f.ltype
    case Varint | UVarint | SVarint =>
      (match ReadVarint(s)
       case None => None
       case Some(Read(v, rest)) => WithRest(NumberFromVarint(f, v), rest))
    case Fixed32 => if |s| < 4 then None else Some(Read(Num(FixedValue(s[..4])), s[4..]))
    case Fixed64 => if |s| < 8 then None else Some(Read(Num(FixedValue(s[..8])), s[8..]))
    case Bytes | String | FixedLengthBytes =>
      (match ReadDelimited(s)
       case None => None
       case Some(Read(b, rest)) => WithRest(BlobFromBytes(f, b), rest))
    case Submessage => None
  }

  /** A field's decoder, writing over `current`. pb_dec_submessage starts a repeated item from
      defaults and merges into what is there otherwise. */
  function DecodeValue(f: Field, s: seq<byte>, current: Value): (r: Option<Read<Value>>)
    ensures r.Some? ==> |r.value.rest| < |s|
    decreases f, |s|, 0
  {
    if !f.ltype.Submessage? then DecodeScalar(f, s)
    else
      match ReadDelimited(s)
      case None => None
      case Some(Read(body, rest)) =>
        if !f.ptr.Msg? then None
        else
          var sub := f.ptr.desc;
          var start := if f.htype.Repeated? then Sub(Defaults(sub)) else current;
          if !start.Sub? || |start.slots| != |sub.fields| then None
          else
            match DecodeNoinit(sub, body, start.slots)
            case None => None
            case Some(m) => Some(Read(Sub(m.value), rest))
  }

  /** The loop over a packed array; bytes left over when the array is full are an error. */
  function DecodePacked(f: Field, s: seq<byte>, items: seq<Value>): Option<seq<Value>>
    decreases f, |s|, 1
  {
    if s == [] then Some(items)
    else if |items| >= f.arraySize then None
    else
      match DecodeValue(f, s, DefaultValue(f))
      case None => None
      case Some(Read(v, rest)) => DecodePacked(f, rest, items + [v])
  }

  /** decode_static_field. */
  function DecodeSlot(f: Field, wire: nat, s: seq<byte>, slot: Slot): (r: Option<Read<Slot>>)
    ensures r.Some? ==> |r.value.rest| < |s|
    decreases f, |s|, 2
  {
    match (f.htype, slot)
    case (Required, One(v)) =>
      (match DecodeValue(f, s, v)
       case None => None
       case Some(Read(w, rest)) => Some(Read(One(w), rest)))
    case (Singular, One(v)) =>
      (match DecodeValue(f, s, v)
       case None => None
       case Some(Read(w, rest)) => Some(Read(One(w), rest)))
    case (Optional, Opt(_, v)) =>
      (match DecodeValue(f, s, v)
       case None => None
       case Some(Read(w, rest)) => Some(Read(Opt(true, w), rest)))
    case (Oneof(_), Opt(_, v)) =>
      (match DecodeValue(f, s, if f.ltype.Submessage? then DefaultValue(f) else v)
       case None => None
       case Some(Read(w, rest)) => Some(Read(Opt(true, w), rest)))
    case (Repeated, Many(items)) =>
      if wire == 2 && Packable(f.ltype) then
        match ReadDelimited(s)
        case None => None
        case Some(Read(body, rest)) =>
          (match DecodePacked(f, body, items)
           case None => None
           case Some(all) => Some(Read(Many(all), rest)))
      else if |items| >= f.arraySize then None
      else
        (match DecodeValue(f, s, DefaultValue(f))
         case None => None
         case Some(Read(w, rest)) => Some(Read(Many(items + [w]), rest)))
    case (_, _) => None
  }

  /** pb_skip_varint. */
  function SkipVarint(s: seq<byte>): (r: Option<seq<byte>>)
    ensures r.Some? ==> |r.value| < |s|
  {
    if s == [] then None else if s[0] >= 0x80 then SkipVarint(s[1..]) else Some(s[1..])
  }

  /** pb_skip_field. */
  function Skip(wire: nat, s: seq<byte>): (r: Option<seq<byte>>)
    ensures r.Some? ==> |r.value| <= |s|
  {
    match wire
    case 0 => SkipVarint(s)
    case 1 => if |s| < 8 then None else Some(s[8..])
    case 2 =>
      (match ReadDelimited(s)
       case None => None
       case Some(Read(_, rest)) => Some(rest))
    case 5 => if |s| < 4 then None else Some(s[4..])
    case _ => None
  }

  /** The position of the field with this tag, |d.fields| if there is none. */
  function Find(d: Desc, tag: nat): (i: nat)
    ensures i <= |d.fields|
    ensures i < |d.fields| ==> d.fields[i].tag == tag
    ensures forall j :: 0 <= j < i ==> d.fields[j].tag != tag
  {
    FindFrom(d, tag, 0)
  }

  function FindFrom(d: Desc, tag: nat, k: nat): (i: nat)
    requires k <= |d.fields|
    ensures k <= i <= |d.fields|
    ensures i < |d.fields| ==> d.fields[i].tag == tag
    ensures forall j :: k <= j < i ==> d.fields[j].tag != tag
    decreases |d.fields| - k
  {
    if k == |d.fields| || d.fields[k].tag == tag then k else FindFrom(d, tag, k + 1)
  }

  /** How many of the first i fields are required: the iterator's required_field_index. */
  function RequiredIndex(d: Desc, i: nat): nat
    requires i <= |d.fields|
  {
    if i == 0 then 0 else RequiredIndex(d, i - 1) + (if d.fields[i - 1].htype.Required? then 1 else 0)
  }

  const MAX_REQUIRED := 64

  /** The bits fields_seen gains when field i is met. */
  function Seen(d: Desc, i: nat): set<nat>
    requires i < |d.fields|
  {
    if d.fields[i].htype.Required? && RequiredIndex(d, i) < MAX_REQUIRED then {RequiredIndex(d, i)} else {}
  }

  /** Setting which_ to one member of a oneof leaves no other member of its group active. */
  function Deactivate(d: Desc, i: nat, slots: seq<Slot>): (r: seq<Slot>)
    requires i < |d.fields| == |slots|
    ensures |r| == |slots|
  {
    seq(|slots|, j requires 0 <= j < |slots| =>
      if j != i && d.fields[i].htype.Oneof? && d.fields[j].htype == d.fields[i].htype && slots[j].Opt?
      then slots[j].(has := false) else slots[j])
  }

  /** The state of pb_decode_noinit's loop. */
  datatype Progress = Progress(slots: seq<Slot>, seen: set<nat>, rest: seq<byte>)

  /** What the loop does with a field whose key is `key`. In an empty message the search for tag 0
      finds the terminator entry, whose size 0 no decoder accepts. */
  function DecodeKeyed(d: Desc, key: nat, p: Progress): (r: Option<Progress>)
    requires |p.slots| == |d.fields|
    ensures r.Some? ==> |r.value.slots| == |d.fields| && |r.value.rest| <= |p.rest|
    decreases d, |p.rest|, 0
  {
    var i := Find(d, key / 8);
    if i < |d.fields| then
      match DecodeSlot(d.fields[i], key % 8, p.rest, p.slots[i])
      case None => None
      case Some(Read(slot, rest)) => Some(Progress(Deactivate(d, i, p.slots)[i := slot], p.seen + Seen(d, i), rest))
    else if d.fields == [] && key / 8 == 0 then None
    else
      match Skip(key % 8, p.rest)
      case None => None
      case Some(rest) => Some(p.(rest := rest))
  }

  datatype Outcome = Outcome(p: Progress, zeroTag: bool)

  /** The loop of pb_decode_noinit. It ends with the stream or at a key that is zero. */
  function DecodeLoop(d: Desc, p: Progress): (r: Option<Outcome>)
    requires |p.slots| == |d.fields|
    ensures r.Some? ==> |r.value.p.slots| == |d.fields|
    ensures r.Some? && !r.value.zeroTag ==> r.value.p.rest == []
    decreases d, |p.rest|, 1
  {
    if p.rest == [] then Some(Outcome(p, false))
    else
      match ReadVarint32(p.rest)
      case None => None
      case Some(Read(key, rest)) =>
        if key == 0 then Some(Outcome(p.(rest := rest), true))
        else
          match DecodeKeyed(d, key, p.(rest := rest))
          case None => None
          case Some(q) => DecodeLoop(d, q)
  }

  /** Every required field is present; only the first 64 of them are tracked. */
  predicate AllSeen(d: Desc, seen: set<nat>) {
    forall k :: 0 <= k < RequiredIndex(d, |d.fields|) && k < MAX_REQUIRED ==> k in seen
  }

  /** pb_decode_noinit: decode into a message that holds `slots`. */
  function DecodeNoinit(d: Desc, s: seq<byte>, slots: seq<Slot>): (r: Option<Read<seq<Slot>>>)
    requires |slots| == |d.fields|
    ensures r.Some? ==> |r.value.value| == |d.fields|
    decreases d, |s|, 2
  {
    match DecodeLoop(d, Progress(slots, {}, s))
    case None => None
    case Some(o) => if AllSeen(d, o.p.seen) then Some(Read(o.p.slots, o.p.rest)) else None
  }

  /** pb_decode. */
  function Decode(d: Desc, s: seq<byte>): Option<Read<seq<Slot>>> {
    DecodeNoinit(d, s, Defaults(d))
  }
}
