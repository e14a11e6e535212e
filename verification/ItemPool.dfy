/** A pool of ready-made objects: what is free lies at the end of the array, like a stack growing downwards. */
module ItemPools {
  import opened Options

  class SimpleItemPool<T> {
    const items: array<T>
    var canUseStart: int

    ghost predicate Valid()
      reads this
    {
      0 < items.Length && -1 <= canUseStart < items.Length
    }

    /** The free objects, next one first. */
    ghost function Free(): seq<T>
      requires Valid()
      reads this, items
    {
      if canUseStart < 0 then [] else items[canUseStart..]
    }

    /** All objects, which the factory made, are free at first. */
    constructor Init(made: seq<T>)
      requires made != []
      ensures Valid() && Free() == made && fresh(items) && items.Length == |made|
    {
      items := new T[|made|](i requires 0 <= i < |made| => made[i]);
      canUseStart := 0;
    }

    /** Takes the next free object, if there is one. */
    method GetFree() returns (item: Option<T>)
      requires Valid()
      modifies this`canUseStart
      ensures Valid()
      ensures old(Free()) == [] ==> item == None && Free() == []
      ensures old(Free()) != [] ==> item == Some(old(Free())[0]) && Free() == old(Free())[1..]
    {
      if canUseStart < 0 {
        return None;
      }
      item := Some(items[canUseStart]);
      canUseStart := canUseStart + 1;
      if canUseStart >= items.Length {
        canUseStart := -1;
      }
    }

    /** Gives an object back; refused when all are free already.  It will be the next one taken. */
    method Recycle(item: T) returns (ok: bool)
      requires Valid()
      modifies this`canUseStart, items
      ensures Valid() && ok == (|old(Free())| < items.Length)
      ensures Free() == if ok then [item] + old(Free()) else old(Free())
    {
      if canUseStart == 0 {
        return false;
      }
      if canUseStart < 0 {
        canUseStart := items.Length - 1;
      } else {
        canUseStart := canUseStart - 1;
      }
      items[canUseStart] := item;
      return true;
    }

    method HasFree() returns (free: bool)
      requires Valid()
      ensures free <==> Free() != []
    {
      return canUseStart >= 0;
    }
  }
}
