/** The operand stack: a LIFO buffer of `SizedValue`s that grows without bound. */
module Stacks {
  import opened Common
  import opened Values

  /** What `pop` returns on a stack with contents `values`, and the contents it leaves. */
  function Popped(values: seq<SizedValue>): (r: (Result<SizedValue>, seq<SizedValue>))
    ensures values == [] ==> r == (Fail(EmptyStack), values)
    ensures values != [] ==> r.0.Ok? && r.1 + [r.0.value] == values
  {
    if values == [] then (Fail(EmptyStack), values)
    else (Ok(values[|values| - 1]), values[..|values| - 1])
  }

  /** `push(v)` followed by `pop()` returns `v` and restores the previous contents. */
  lemma PopUndoesPush(values: seq<SizedValue>, v: SizedValue)
    ensures Popped(values + [v]) == (Ok(v), values)
  {
    assert (values + [v])[..|values|] == values;
  }

  class Stack {
    /** Bottom first: the top of the stack is the last element. */
    var values: seq<SizedValue>

    constructor ()
      ensures values == []
    {
      values := [];
    }

    method Push(value: SizedValue)
      modifies this
      ensures values == old(values) + [value]
    {
      values := values + [value];
    }

    /** Removes and returns the top value; panics on an empty stack. */
    method Pop() returns (r: Result<SizedValue>)
      modifies this
      ensures (r, values) == Popped(old(values))
    {
      if |values| == 0 {
        return Fail(EmptyStack);
      }
      r := Ok(values[|values| - 1]);
      values := values[..|values| - 1];
    }
  }
}
