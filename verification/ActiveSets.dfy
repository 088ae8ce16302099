/** The `active` set that the recursive readers share: what is being read further up the call stack. */
module ActiveSets {

  /** No recursion through shared indexes or submodules goes deeper than this. */
  const MAX_DEPTH: nat := 64

  class ActiveSet {
    var members: set<string>
    /** The members in the order they were entered. */
    ghost var stack: seq<string>

    ghost predicate Valid()
      reads this
    {
      && (forall x :: x in members <==> x in stack)
      && (forall i, j :: 0 <= i < j < |stack| ==> stack[i] != stack[j])
      && |members| == |stack| <= MAX_DEPTH
    }

    constructor ()
      ensures Valid() && stack == [] && members == {}
    {
      members := {};
      stack := [];
    }

    /** Refuses a member that is already active, and one that would exceed the limit. */
    method Enter(x: string, limit: nat := MAX_DEPTH) returns (entered: bool)
      requires Valid() && limit <= MAX_DEPTH
      modifies this
      ensures Valid()
      ensures entered <==> x !in old(members) && |old(members)| < limit
      ensures entered ==> members == old(members) + {x} && stack == old(stack) + [x]
      ensures !entered ==> members == old(members) && stack == old(stack)
    {
      if x in members || |members| >= limit {
        return false;
      }
      members := members + {x};
      stack := stack + [x];
      return true;
    }

    method Leave(x: string)
      requires Valid() && stack != [] && stack[|stack| - 1] == x
      modifies this
      ensures Valid()
      ensures members == old(members) - {x} && stack == old(stack)[..|old(stack)| - 1]
    {
      members := members - {x};
      ghost var before := stack;
      stack := stack[..|stack| - 1];
      assert before == stack + [x];
    }
  }
}
