/** The field iterator of pb_common.c, which walks a descriptor as a ring and keeps its data
    pointers up to date step by step. */
module PbIter {
  import opened PbWire
  import opened PbMessage

  /** PB_SIZE_MAX, which marks a later member of a union. */
  const SIZE_MAX := 0xffff_ffff

  /** The terminator entry of a descriptor that has no fields. */
  const LAST_FIELD := Field(0, Varint, Required, 0, 0, 0, 0, Null)

  /** The entry an iterator at position i points to. */
  function EntryAt(d: Desc, i: nat): Field {
    if i < |d.fields| then d.fields[i] else LAST_FIELD
  }

  /** The bytes a field occupies in the message structure. */
  function StorageSize(f: Field): nat {
    if f.htype.Repeated? then f.dataSize * f.arraySize else f.dataSize
  }

  predicate SharesUnion(prev: Field, f: Field) {
    prev.htype.Oneof? && f.htype.Oneof? && f.dataOffset == SIZE_MAX
  }

  /** Where field i's data lies in the message structure. */
  function DataAt(d: Desc, i: nat): int {
    if i == 0 then EntryAt(d, 0).dataOffset
    else if SharesUnion(EntryAt(d, i - 1), EntryAt(d, i)) then DataAt(d, i - 1)
    else DataAt(d, i - 1) + StorageSize(EntryAt(d, i - 1)) + EntryAt(d, i).dataOffset
  }

  /** Where field i's has_, count or which_ variable lies. */
  function SizeAt(d: Desc, i: nat): int {
    if i == 0 then DataAt(d, 0) + EntryAt(d, 0).sizeOffset
    else if SharesUnion(EntryAt(d, i - 1), EntryAt(d, i)) then SizeAt(d, i - 1)
    else DataAt(d, i) + EntryAt(d, i).sizeOffset
  }

  /** Every member of a union has the data and the which_ variable of its first member. */
  lemma {:induction false} UnionMembersOverlap(d: Desc, i: nat, j: nat)
    requires i <= j
    requires forall k :: i < k <= j ==> SharesUnion(EntryAt(d, k - 1), EntryAt(d, k))
    ensures DataAt(d, j) == DataAt(d, i) && SizeAt(d, j) == SizeAt(d, i)
    decreases j
  {
    if i < j {
      UnionMembersOverlap(d, i, j - 1);
    }
  }

  /** Where item k of an array field begins. */
  function ItemAt(d: Desc, i: nat, k: nat): int {
    DataAt(d, i) + k * EntryAt(d, i).dataSize
  }

  /** Fields do not overlap, unless a union lies between: the whole of a field, all items of an array
      included, lies before any field after it. */
  lemma {:induction false} FieldsApart(d: Desc, i: nat, j: nat, k: nat)
    requires i < j && forall n :: i < n <= j ==> !SharesUnion(EntryAt(d, n - 1), EntryAt(d, n))
    requires k < if EntryAt(d, i).htype.Repeated? then EntryAt(d, i).arraySize else 1
    ensures DataAt(d, i) <= ItemAt(d, i, k) && ItemAt(d, i, k) + EntryAt(d, i).dataSize <= DataAt(d, j)
    decreases j
  {
    var f := EntryAt(d, i);
    if i + 1 < j {
      FieldsApart(d, i, j - 1, k);
    } else if f.htype.Repeated? {
      assert (k + 1) * f.dataSize <= f.arraySize * f.dataSize;
    }
  }

  class FieldIter {
    const d: Desc
    var pos: nat
    var pData: int
    var pSize: int
    var requiredIndex: nat

    /** The pointers and the required-field count are those of the position, whatever way round the
        ring the iterator has come. */
    predicate Valid()
      reads this
    {
      && (pos < |d.fields| || (pos == 0 && d.fields == []))
      && pData == DataAt(d, pos) && pSize == SizeAt(d, pos) && requiredIndex == RequiredIndex(d, pos)
    }

    /** pb_field_iter_begin; false for an empty message is `d.fields == []`. */
    constructor (d: Desc)
      ensures Valid() && this.d == d && pos == 0
    {
      this.d := d;
      pos := 0;
      pData := EntryAt(d, 0).dataOffset;
      pSize := EntryAt(d, 0).dataOffset + EntryAt(d, 0).sizeOffset;
      requiredIndex := 0;
    }

    /** pb_field_iter_next: the next field, or back to the first and false. */
    method Next() returns (more: bool)
      requires Valid()
      modifies this
      ensures Valid()
      ensures more <==> old(pos) + 1 < |d.fields|
      ensures pos == if more then old(pos) + 1 else 0
    {
      if pos >= |d.fields| {
        return false;
      }
      var prev := d.fields[pos];
      pos := pos + 1;
      if pos == |d.fields| {
        pos := 0;
        pData := EntryAt(d, 0).dataOffset;
        pSize := pData + EntryAt(d, 0).sizeOffset;
        requiredIndex := 0;
        return false;
      }
      var f := d.fields[pos];
      if prev.htype.Oneof? && f.htype.Oneof? && f.dataOffset == SIZE_MAX {
        return true;
      }
      var prevSize := prev.dataSize;
      if prev.htype.Repeated? {
        prevSize := prevSize * prev.arraySize;
      }
      if prev.htype.Required? {
        requiredIndex := requiredIndex + 1;
      }
      pData := pData + prevSize + f.dataOffset;
      pSize := pData + f.sizeOffset;
      return true;
    }

    /** pb_field_iter_find: search the whole ring from the current position. With unique tags the
        result does not depend on where the search starts. */
    method Find(tag: nat) returns (found: bool)
      requires Valid() && GoodTags(d)
      modifies this
      ensures Valid()
      ensures found <==> PbMessage.Find(d, tag) < |d.fields| || (d.fields == [] && tag == 0)
      ensures found && d.fields != [] ==> pos == PbMessage.Find(d, tag)
      ensures !found ==> pos == old(pos)
    {
      hide DataAt, SizeAt, RequiredIndex;
      var start := pos;
      ghost var wrapped := false;
      while true
        invariant Valid() && (pos < start <==> wrapped)
        invariant forall k :: start <= k < (if wrapped then |d.fields| else pos) ==> d.fields[k].tag != tag
        invariant wrapped ==> forall k :: 0 <= k < pos ==> d.fields[k].tag != tag
        decreases if wrapped then start - pos else |d.fields| + start - pos
      {
        if EntryAt(d, pos).tag == tag {
          return true;
        }
        var more := Next();
        if pos == start {
          break;
        }
        wrapped := wrapped || !more;
      }
      return false;
    }
  }
}
