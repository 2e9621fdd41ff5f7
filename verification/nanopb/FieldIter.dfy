/**
 The circular iterator over a descriptor.  The C iterator steps a struct pointer by
 field sizes; here the pointer is the index of the slot it would address.
 */
module FieldIter {
  import opened Message
  import opened Decode

  class Iter {
    const fields: seq<Field>
    var pos: nat
    /** Which slot `pData` points into. */
    var slot: nat
    var requiredFieldIndex: nat

    /** The derived fields are functions of the position alone, however it was reached. */
    ghost predicate Valid()
      reads this
    {
      if fields == [] then pos == slot == requiredFieldIndex == 0
      else pos < |fields| && slot == SlotIndex(fields, pos) && requiredFieldIndex == RequiredBefore(fields, pos)
    }

    /** `pb_field_iter_begin`; it reports whether there is a first field. */
    constructor (fs: seq<Field>)
      ensures Valid() && fields == fs && pos == 0
    {
      fields := fs;
      pos, slot, requiredFieldIndex := 0, 0, 0;
    }

    /** `pb_field_iter_next`: false when it wraps back to the beginning. */
    method Next() returns (more: bool)
      requires Valid()
      modifies this
      ensures Valid()
      ensures more == (old(pos) + 1 < |fields|)
      ensures pos == if more then old(pos) + 1 else 0
    {
      if fields == [] {
        return false;
      }
      var prev := fields[pos];
      pos := pos + 1;
      if pos == |fields| {
        pos, slot, requiredFieldIndex := 0, 0, 0;
        return false;
      }
      if prev.htype.Oneof? && fields[pos].htype.Oneof? && fields[pos].sameUnion {
        return true;
      }
      if prev.htype.Required? {
        requiredFieldIndex := requiredFieldIndex + 1;
      }
      slot := slot + 1;
      return true;
    }

    /** `pb_field_iter_find`.  With distinct tags the field found does not depend on where
        the search starts.  An empty descriptor's terminator answers to tag 0. */
    method Find(tag: nat) returns (found: bool)
      requires Valid() && DistinctTags(fields)
      modifies this
      ensures Valid()
      ensures fields != [] ==> (found <==> Decode.Find(fields, tag) < |fields|)
      ensures fields != [] && found ==> pos == Decode.Find(fields, tag)
      ensures !found ==> pos == old(pos)
      ensures fields == [] ==> found == (tag == 0)
    {
      if fields == [] {
        return tag == 0;
      }
      var start := pos;
      if fields[pos].tag == tag {
        return true;
      }
      var more := Next();
      while pos != start
        invariant Valid()
        invariant forall j :: 0 <= j < |fields| && Passed(start, pos, j) ==> fields[j].tag != tag
        decreases if pos > start then |fields| + start - pos else start - pos
      {
        if fields[pos].tag == tag {
          return true;
        }
        more := Next();
      }
      return false;
    }

    /** The positions a circular search from `start` has left behind on reaching `p`
        again or for the first time. */
    static predicate Passed(start: nat, p: nat, j: nat) {
      if p > start then start <= j < p else start <= j || j < p
    }
  }
}
