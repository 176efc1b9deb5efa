/** The iterator over a descriptor table that encoder and decoder share. */
module PbIter {
  import opened Bytes
  import opened PbTypes
  import opened PbWire

  class FieldIter {
    const d: Desc
    var pos: nat
    var requiredFieldIndex: nat

    /** The iterator is on a field, unless the table is empty; the index counts the required fields before it. */
    predicate Valid()
      reads this
    {
      && (if d.fields == [] then pos == 0 else pos < |d.fields|)
      && requiredFieldIndex == RequiredBefore(d, pos)
    }

    /** pb_field_iter_begin; the table is empty if pos is no field. */
    constructor (d: Desc)
      ensures Valid() && this.d == d && pos == 0
    {
      this.d := d;
      pos, requiredFieldIndex := 0, 0;
    }

    /** pb_field_iter_next: false when the iterator has wrapped to the first field. */
    method Next() returns (more: bool)
      requires Valid()
      modifies this
      ensures Valid()
      ensures more == (old(pos) + 1 < |d.fields|)
      ensures pos == if more then old(pos) + 1 else 0
    {
      if d.fields == [] {
        return false;
      }
      var prev := d.fields[pos];
      pos := pos + 1;
      if pos == |d.fields| {
        pos, requiredFieldIndex := 0, 0;
        return false;
      }
      if prev.rule.OneOf? && d.fields[pos].rule.OneOf? {
        return true;
      }
      if prev.rule.Required? {
        requiredFieldIndex := requiredFieldIndex + 1;
      }
      return true;
    }

    /** pb_field_iter_find: from wherever the iterator is, once around the table. On an empty table the iterator is on
        the terminator, whose tag is 0. */
    method Find(tag: nat) returns (found: bool)
      requires Valid() && Typed(d)
      modifies this
      ensures Valid()
      ensures found <==> PbTypes.Find(d, tag).Some? || FindsTerminator(d, tag)
      ensures found && d.fields != [] ==> PbTypes.Find(d, tag) == Some(pos)
      ensures !found ==> pos == old(pos)
    {
      if d.fields == [] {
        return tag == 0;
      }
      var start := pos;
      ghost var wrapped := false;
      while true
        invariant Valid()
        invariant if wrapped then pos < start else start <= pos
        invariant forall i | start <= i < (if wrapped then |d.fields| else pos) :: d.fields[i].tag != tag
        invariant wrapped ==> forall i | 0 <= i < pos :: d.fields[i].tag != tag
        decreases if wrapped then start - pos else |d.fields| - pos + start
      {
        if d.fields[pos].tag == tag {
          FindUnique(d, pos);
          return true;
        }
        var more := Next();
        wrapped := wrapped || !more;
        if pos == start {
          break;
        }
      }
      assert forall i | 0 <= i < |d.fields| :: d.fields[i].tag != tag;
      return false;
    }
  }
}
