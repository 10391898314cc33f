/** The stop-the-world mark-and-sweep collector over the operand stack and the heap.

    Roots are the `Address` values on the stack. Marking goes exactly one
    level deep: a root's own slot, and, when that slot is an `Object` or a
    `List`, every address held directly in it. Sweeping overwrites every
    unmarked slot with `Empty`. The heap keeps its length. */
module Collector {
  import opened Common
  import opened Values
  import opened Heaps
  import opened Stacks

  // ---------------------------------------------------------------------------
  // Specification

  /** The addresses a slot holds directly: the `Address` values among an
      `Object`'s entries or a `List`'s items. Other slots hold none. */
  function Children(slot: UnsizedValue): set<nat> {
    match slot
    case Object(fields) => set k | k in fields && fields[k].Address? :: fields[k].address as nat
    case List(items) => set j | 0 <= j < |items| && items[j].Address? :: items[j].address as nat
    case _ => {}
  }

  /** Every root on the stack names a slot of the heap. */
  predicate RootsResolve(stack: seq<SizedValue>, heap: seq<UnsizedValue>) {
    forall i :: 0 <= i < |stack| && stack[i].Address? ==> stack[i].address as int < |heap|
  }

  /** What one stack entry marks: for a root, its own index and the addresses
      its slot holds directly; nothing for any other value. */
  function MarkedFrom(v: SizedValue, heap: seq<UnsizedValue>): set<nat>
    requires v.Address? ==> v.address as int < |heap|
  {
    match v
    case Address(a) => {a as nat} + Children(heap[a as int])
    case _ => {}
  }

  /** The mark set built from the stack, entry by entry from the bottom. */
  function MarkedBy(stack: seq<SizedValue>, heap: seq<UnsizedValue>): set<nat>
    requires RootsResolve(stack, heap)
    decreases |stack|
  {
    if stack == [] then {}
    else MarkedBy(stack[..|stack| - 1], heap) + MarkedFrom(stack[|stack| - 1], heap)
  }

  /** Some stack entry marks slot `x`. */
  predicate Reached(stack: seq<SizedValue>, heap: seq<UnsizedValue>, x: nat)
    requires RootsResolve(stack, heap)
  {
    exists i :: 0 <= i < |stack| && x in MarkedFrom(stack[i], heap)
  }

  /** The heap after the sweep: marked slots kept, all others `Empty`. */
  function Swept(heap: seq<UnsizedValue>, marked: set<nat>): seq<UnsizedValue> {
    seq(|heap|, i requires 0 <= i < |heap| => if i in marked then heap[i] else Empty)
  }

  /** The heap after one collection with the given stack, or the panic of a
      root that names no slot. */
  function Collect(stack: seq<SizedValue>, heap: seq<UnsizedValue>): Result<seq<UnsizedValue>> {
    if RootsResolve(stack, heap) then Ok(Swept(heap, MarkedBy(stack, heap)))
    else Fail(AddressOutOfRange)
  }

  function Elems(s: seq<nat>): set<nat> {
    set x | x in s
  }

  /** The addresses one value contributes when it sits in a container. */
  function AddressOf(v: SizedValue): set<nat> {
    if v.Address? then {v.address as nat} else {}
  }

  lemma ElemsAppend(s: seq<nat>, x: nat)
    ensures Elems(s + [x]) == Elems(s) + {x}
  {
    assert forall y :: y in s + [x] <==> y in s || y == x;
  }

  lemma ItemsStep(items: seq<SizedValue>, j: nat)
    requires j < |items|
    ensures Children(List(items[..j + 1])) == Children(List(items[..j])) + AddressOf(items[j])
  {
    var pre, post := items[..j], items[..j + 1];
    forall x ensures x in Children(List(post)) <==> x in Children(List(pre)) || x in AddressOf(items[j]) {
      if x in Children(List(post)) {
        var i :| 0 <= i < |post| && post[i].Address? && post[i].address as nat == x;
        if i < j {
          assert pre[i] == post[i];
        }
      }
      if x in Children(List(pre)) {
        var i :| 0 <= i < |pre| && pre[i].Address? && pre[i].address as nat == x;
        assert post[i] == pre[i];
      }
      if x in AddressOf(items[j]) {
        assert post[j] == items[j];
      }
    }
  }

  lemma FieldsStep(fields: map<string, SizedValue>, pending: set<string>, k: string)
    requires k in pending && pending <= fields.Keys
    ensures Children(Object(fields - (pending - {k})))
      == Children(Object(fields - pending)) + AddressOf(fields[k])
  {
    var pre, post := fields - pending, fields - (pending - {k});
    forall x ensures x in Children(Object(post)) <==> x in Children(Object(pre)) || x in AddressOf(fields[k]) {
      if x in Children(Object(post)) {
        var key :| key in post && post[key].Address? && post[key].address as nat == x;
        if key != k {
          assert key in pre;
        }
      }
      if x in Children(Object(pre)) {
        var key :| key in pre && pre[key].Address? && pre[key].address as nat == x;
        assert key in post;
      }
      if x in AddressOf(fields[k]) {
        assert k in post;
      }
    }
  }

  // ---------------------------------------------------------------------------
  // The collector

  /** Appends the addresses held in a list's items to `marked`. */
  method MarkItems(items: seq<SizedValue>, marked: seq<nat>) returns (result: seq<nat>)
    ensures Elems(result) == Elems(marked) + Children(List(items))
  {
    result := marked;
    for j := 0 to |items|
      invariant Elems(result) == Elems(marked) + Children(List(items[..j]))
    {
      ItemsStep(items, j);
      if items[j].Address? {
        ElemsAppend(result, items[j].address as nat);
        result := result + [items[j].address as nat];
      }
    }
    assert items[..|items|] == items;
  }

  /** Appends the addresses held in an object's entries to `marked`, visiting
      the keys in an arbitrary order. */
  method MarkFields(fields: map<string, SizedValue>, marked: seq<nat>) returns (result: seq<nat>)
    ensures Elems(result) == Elems(marked) + Children(Object(fields))
  {
    result := marked;
    var pending := fields.Keys;
    while pending != {}
      invariant pending <= fields.Keys
      invariant Elems(result) == Elems(marked) + Children(Object(fields - pending))
      decreases |pending|
    {
      var k :| k in pending;
      FieldsStep(fields, pending, k);
      if fields[k].Address? {
        ElemsAppend(result, fields[k].address as nat);
        result := result + [fields[k].address as nat];
      }
      pending := pending - {k};
    }
    assert fields - {} == fields;
  }

  /** The mark phase: the list of marked indices, or a panic at the first
      root that names no slot. */
  method Mark(stack: seq<SizedValue>, heap: seq<UnsizedValue>) returns (r: Result<seq<nat>>)
    ensures r.Ok? <==> RootsResolve(stack, heap)
    ensures r.Fail? ==> r.panic == AddressOutOfRange
    ensures r.Ok? ==> Elems(r.value) == MarkedBy(stack, heap)
  {
    var marked: seq<nat> := [];
    for i := 0 to |stack|
      invariant RootsResolve(stack[..i], heap)
      invariant Elems(marked) == MarkedBy(stack[..i], heap)
    {
      assert stack[..i + 1][..i] == stack[..i];
      match stack[i] {
        case Address(a) =>
          marked := marked + [a as nat];
          if |heap| <= a as int {
            return Fail(AddressOutOfRange);
          }
          match heap[a as int] {
            case Object(fields) =>
              marked := MarkFields(fields, marked);
            case List(items) =>
              marked := MarkItems(items, marked);
            case _ =>
          }
        case _ =>
      }
    }
    assert stack[..|stack|] == stack;
    return Ok(marked);
  }

  /** One collection: mark from the stack's roots, then sweep the heap in place.
      The stack is only read. On a panic the heap is left as it was. */
  method Gc(stack: Stack, heap: Heap) returns (outcome: Outcome)
    modifies heap
    ensures unchanged(stack)
    ensures Collect(stack.values, old(heap.values)).Ok? ==>
      outcome == Done && heap.values == Collect(stack.values, old(heap.values)).value
    ensures Collect(stack.values, old(heap.values)).Fail? ==>
      outcome == Aborted(AddressOutOfRange) && heap.values == old(heap.values)
  {
    var marking := Mark(stack.values, heap.values);
    if marking.Fail? {
      return Aborted(marking.panic);
    }
    var marked := marking.value;
    ghost var before := heap.values;
    ghost var target := Swept(before, Elems(marked));
    for index := 0 to |heap.values|
      invariant |heap.values| == |before|
      invariant forall j :: 0 <= j < index ==> heap.values[j] == target[j]
      invariant forall j :: index <= j < |before| ==> heap.values[j] == before[j]
    {
      if index !in marked {
        heap.values := heap.values[index := Empty];
      }
    }
    assert heap.values == target;
    return Done;
  }

  // ---------------------------------------------------------------------------
  // What a collection keeps and what it clears

  /** A slot is in the mark set exactly when some stack entry marks it. */
  lemma {:induction false} MarkedByIff(stack: seq<SizedValue>, heap: seq<UnsizedValue>, x: nat)
    requires RootsResolve(stack, heap)
    ensures x in MarkedBy(stack, heap) <==> Reached(stack, heap, x)
    decreases |stack|
  {
    if stack != [] {
      var n := |stack| - 1;
      var init := stack[..n];
      assert RootsResolve(init, heap);
      MarkedByIff(init, heap, x);
      if x in MarkedBy(init, heap) {
        var i :| 0 <= i < |init| && x in MarkedFrom(init[i], heap);
        assert init[i] == stack[i];
      }
      if Reached(stack, heap, x) {
        var i :| 0 <= i < |stack| && x in MarkedFrom(stack[i], heap);
        if i < n {
          assert init[i] == stack[i];
        }
      }
    }
  }

  /** Collection panics exactly when a stack root lies beyond the heap; an
      out-of-range address inside a container never makes it fail. On success
      the heap keeps its length. */
  lemma CollectFailsOnlyOnDanglingRoot(stack: seq<SizedValue>, heap: seq<UnsizedValue>)
    ensures Collect(stack, heap).Fail? <==>
      exists i :: 0 <= i < |stack| && stack[i].Address? && stack[i].address as int >= |heap|
    ensures Collect(stack, heap).Ok? ==> |Collect(stack, heap).value| == |heap|
  {
  }

  /** Each slot either keeps its exact value, when some stack entry marks it,
      or becomes `Empty`. */
  lemma SlotFate(stack: seq<SizedValue>, heap: seq<UnsizedValue>, x: nat)
    requires Collect(stack, heap).Ok? && x < |heap|
    ensures RootsResolve(stack, heap)
    ensures Collect(stack, heap).value[x] == if Reached(stack, heap, x) then heap[x] else Empty
  {
    MarkedByIff(stack, heap, x);
  }

  /** Every slot named by an `Address` on the stack keeps its exact value. */
  lemma RootsSurvive(stack: seq<SizedValue>, heap: seq<UnsizedValue>, i: nat)
    requires Collect(stack, heap).Ok? && i < |stack| && stack[i].Address?
    ensures stack[i].address as int < |heap|
    ensures Collect(stack, heap).value[stack[i].address] == heap[stack[i].address]
  {
    var a := stack[i].address as nat;
    assert a in MarkedFrom(stack[i], heap);
    SlotFate(stack, heap, a);
  }

  /** An address held in an entry of an `Object` that a stack root names
      survives, when it names a slot. */
  lemma FieldTargetsSurvive(stack: seq<SizedValue>, heap: seq<UnsizedValue>, i: nat, key: string)
    requires Collect(stack, heap).Ok? && i < |stack| && stack[i].Address?
    requires stack[i].address as int < |heap| && heap[stack[i].address].Object?
    requires key in heap[stack[i].address].fields && heap[stack[i].address].fields[key].Address?
    requires heap[stack[i].address].fields[key].address as int < |heap|
    ensures var c := heap[stack[i].address].fields[key].address;
      Collect(stack, heap).value[c] == heap[c]
  {
    var fields := heap[stack[i].address].fields;
    var c := fields[key].address as nat;
    assert c in Children(Object(fields));
    assert c in MarkedFrom(stack[i], heap);
    SlotFate(stack, heap, c);
  }

  /** An address held in an item of a `List` that a stack root names survives,
      when it names a slot. */
  lemma ItemTargetsSurvive(stack: seq<SizedValue>, heap: seq<UnsizedValue>, i: nat, j: nat)
    requires Collect(stack, heap).Ok? && i < |stack| && stack[i].Address?
    requires stack[i].address as int < |heap| && heap[stack[i].address].List?
    requires j < |heap[stack[i].address].items| && heap[stack[i].address].items[j].Address?
    requires heap[stack[i].address].items[j].address as int < |heap|
    ensures var c := heap[stack[i].address].items[j].address;
      Collect(stack, heap).value[c] == heap[c]
  {
    var items := heap[stack[i].address].items;
    var c := items[j].address as nat;
    assert c in Children(List(items));
    assert c in MarkedFrom(stack[i], heap);
    SlotFate(stack, heap, c);
  }

  /** A slot that no stack root names and that no root's container holds
      directly becomes `Empty`. */
  lemma UnreachedSlotsCleared(stack: seq<SizedValue>, heap: seq<UnsizedValue>, x: nat)
    requires RootsResolve(stack, heap) && x < |heap|
    requires forall i :: 0 <= i < |stack| && stack[i].Address? ==>
      stack[i].address as int != x && x !in Children(heap[stack[i].address])
    ensures Collect(stack, heap).value[x] == Empty
  {
    SlotFate(stack, heap, x);
  }

  /** A root whose slot is not a container marks its own index only. */
  lemma NonContainerMarksItself(heap: seq<UnsizedValue>, a: usize)
    requires a as int < |heap| && !heap[a].Object? && !heap[a].List?
    ensures MarkedFrom(Address(a), heap) == {a as nat}
  {
  }

  /** With no `Address` on the stack, every slot becomes `Empty`. */
  lemma NoRootsClearEverything(stack: seq<SizedValue>, heap: seq<UnsizedValue>)
    requires forall i :: 0 <= i < |stack| ==> !stack[i].Address?
    ensures Collect(stack, heap) == Ok(seq(|heap|, _ => Empty))
  {
    forall x: nat | x < |heap|
      ensures Collect(stack, heap).value[x] == Empty
    {
      SlotFate(stack, heap, x);
    }
    assert Collect(stack, heap).value == seq(|heap|, _ => Empty);
  }

  /** Marking is one level deep: a list reached only through another list is
      cleared. Root 0 holds a list naming slot 1, slot 1 a list naming slot 2;
      slots 0 and 1 survive, slot 2 does not. */
  lemma SecondLevelIsCleared()
    ensures var heap := [List([Address(1)]), List([Address(2)]), String("two levels down")];
      Collect([Address(0)], heap) == Ok([heap[0], heap[1], Empty])
  {
    var heap := [List([Address(1)]), List([Address(2)]), String("two levels down")];
    var stack := [Address(0)];
    assert Children(heap[0]) == {1} by {
      assert [Address(1)][0].address as nat == 1;
    }
    assert stack[..0] == [];
    assert MarkedBy(stack, heap) == {0, 1};
    var after := Collect(stack, heap).value;
    assert after == [heap[0], heap[1], Empty];
  }

  /** The mark set depends on the heap only through the slots the roots name. */
  lemma {:induction false} MarkedBySameRootSlots(
    stack: seq<SizedValue>, heap: seq<UnsizedValue>, heap': seq<UnsizedValue>)
    requires RootsResolve(stack, heap) && |heap'| == |heap|
    requires forall i :: 0 <= i < |stack| && stack[i].Address? ==>
      heap'[stack[i].address] == heap[stack[i].address]
    ensures RootsResolve(stack, heap')
    ensures MarkedBy(stack, heap') == MarkedBy(stack, heap)
    decreases |stack|
  {
    if stack != [] {
      var n := |stack| - 1;
      var init := stack[..n];
      forall i | 0 <= i < |init| && init[i].Address?
        ensures heap'[init[i].address] == heap[init[i].address]
      {
        assert init[i] == stack[i];
      }
      MarkedBySameRootSlots(init, heap, heap');
    }
  }

  /** Collection is idempotent: a second run with the same stack changes
      nothing, since every root slot, and so the mark set, is unchanged. */
  lemma CollectIsIdempotent(stack: seq<SizedValue>, heap: seq<UnsizedValue>)
    requires Collect(stack, heap).Ok?
    ensures Collect(stack, Collect(stack, heap).value) == Collect(stack, heap)
  {
    var after := Collect(stack, heap).value;
    forall i | 0 <= i < |stack| && stack[i].Address?
      ensures after[stack[i].address] == heap[stack[i].address]
    {
      RootsSurvive(stack, heap, i);
    }
    MarkedBySameRootSlots(stack, heap, after);
    var marked := MarkedBy(stack, heap);
    assert Swept(after, marked) == after;
  }
}
