/** The output of the pass: the caller-owned set of frontier instructions that every
    stage inserts into in place (a std::set of instruction pointers). */
module Aggregator {
  import opened IR

  class FrontierSet {
    var elems: set<InstPtr>

    constructor ()
      ensures elems == {}
    {
      elems := {};
    }

    /** std::set::insert: adds p; inserting an element already present changes nothing. */
    method Insert(p: InstPtr)
      modifies this
      ensures elems == old(elems) + {p}
      ensures p in old(elems) ==> elems == old(elems) && |elems| == |old(elems)|
    {
      elems := elems + {p};
    }
  }
}
