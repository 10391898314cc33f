/** The heap: heap-resident payloads (`UnsizedValue`) in an append-only
    vector whose indices are the addresses held by `Address` values. */
module Heaps {
  import opened Common
  import opened Values
  import OpCodes

  datatype UnsizedValue =
    | String(text: string)
    | List(items: seq<SizedValue>)
    | Object(fields: map<string, SizedValue>)
    | Function(code: seq<OpCodes.OpCode>)
    | Empty   // the tombstone the collector writes into a reclaimed slot

  /** `as_function`: the code of a `Function`, a panic for every other variant. */
  function AsFunction(v: UnsizedValue): (r: Result<seq<OpCodes.OpCode>>)
    ensures r.Ok? <==> v.Function?
    ensures r.Ok? ==> v == Function(r.value)
    ensures r.Fail? ==> r.panic == TypeMismatch
  {
    match v
    case Function(code) => Ok(code)
    case _ => Fail(TypeMismatch)
  }

  /** `as_string`: the text of a `String`, a panic for every other variant. */
  function AsString(v: UnsizedValue): (r: Result<string>)
    ensures r.Ok? <==> v.String?
    ensures r.Ok? ==> v == String(r.value)
    ensures r.Fail? ==> r.panic == TypeMismatch
  {
    match v
    case String(s) => Ok(s)
    case _ => Fail(TypeMismatch)
  }

  /** A tombstone is neither a string nor a function. */
  lemma EmptyIsNoPayload()
    ensures AsString(Empty) == Fail(TypeMismatch) && AsFunction(Empty) == Fail(TypeMismatch)
  {
  }

  class Heap {
    /** Slot `i` is the payload at address `i`. */
    var values: seq<UnsizedValue>

    constructor ()
      ensures values == []
    {
      values := [];
    }

    /** The payload at `address`; panics when the address is not below the length. */
    function Get(address: nat): (r: Result<UnsizedValue>)
      reads this
      ensures r.Ok? <==> address < |values|
      ensures r.Ok? ==> r.value == values[address]
      ensures r.Fail? ==> r.panic == AddressOutOfRange
    {
      if address < |values| then Ok(values[address]) else Fail(AddressOutOfRange)
    }

    /** Appends `value` and returns its address, the old length. */
    method Alloc(value: UnsizedValue) returns (address: nat)
      modifies this
      ensures values == old(values) + [value]
      ensures address == |old(values)| && Get(address) == Ok(value)
      ensures forall a: nat :: a < address ==> Get(a) == old(Get(a))
    {
      values := values + [value];
      address := |values| - 1;
    }

    /** Appends `value` without reporting its address. */
    method Push(value: UnsizedValue)
      modifies this
      ensures values == old(values) + [value]
      ensures forall a: nat :: a < |old(values)| ==> Get(a) == old(Get(a))
    {
      values := values + [value];
    }

    /** Removes and returns the last slot; panics on an empty heap. */
    method Pop() returns (r: Result<UnsizedValue>)
      modifies this
      ensures old(values) == [] ==> r == Fail(EmptyHeap) && values == old(values)
      ensures old(values) != [] ==> r.Ok? && values + [r.value] == old(values)
    {
      if |values| == 0 {
        return Fail(EmptyHeap);
      }
      r := Ok(values[|values| - 1]);
      values := values[..|values| - 1];
    }
  }
}
