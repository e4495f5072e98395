/** The offset list the subkey walker accumulates into: an ordered list of
    non-zero block offsets with a ceiling on its length. */
module OffsetLists {
  import opened Results

  /** The initial ceiling, SIZE_MAX on a 64-bit host: in effect unlimited. */
  const SizeMax: nat := 0xFFFF_FFFF_FFFF_FFFF

  /** Appending `x` to `list` under ceiling `limit`: past the ceiling the
      append fails rather than truncating. */
  function Push(list: seq<nat>, limit: nat, x: nat): (r: Result<seq<nat>>)
    ensures r.Ok? <==> |list| < limit
    ensures r.Ok? ==> r.value == list + [x]
    ensures r.Err? ==> r.error == OutOfRange
  {
    if |list| >= limit then Err(OutOfRange) else Ok(list + [x])
  }

  class OffsetList {
    var items: seq<nat>
    var limit: nat

    /** The list never exceeds its ceiling and never holds 0, the value
        that terminates the array it is finally returned as. */
    ghost predicate Valid()
      reads this
    {
      |items| <= limit && forall x <- items :: x != 0
    }

    constructor ()
      ensures Valid() && items == [] && limit == SizeMax
    {
      items := [];
      limit := SizeMax;
    }

    method SetLimit(n: nat)
      requires Valid() && |items| <= n
      modifies this
      ensures Valid() && items == old(items) && limit == n
    {
      limit := n;
    }

    /** Adding 0 is an internal error (an assert in the C code). */
    method Add(x: nat) returns (ok: bool)
      requires Valid() && x != 0
      modifies this
      ensures Valid() && limit == old(limit)
      ensures ok == Push(old(items), limit, x).Ok?
      ensures items == if ok then Push(old(items), limit, x).value else old(items)
    {
      ok := |items| < limit;
      if ok {
        items := items + [x];
      }
    }

    function Length(): (n: nat)
      reads this
      ensures n == |items|
    {
      |items|
    }
  }
}
