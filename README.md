# Mark-and-sweep VM core in Dafny

This project models the sequential core of a small Rust virtual machine. The
core has four parts:

- **Value model and operand stack** (`src/stack.rs`). `SizedValue` is a closed
  union of `I64`, `F64`, `Bool`, `Address`, `FunctionPtr` and `Null`. It has
  variant-wise equality and partial ordering, the `as_address`, `as_usize`
  and `as_bool` accessors, and the operators `+ - * / % unary- ! & |`. Each
  operator panics on a variant it does not accept. `Stack` is a growable
  LIFO vector.
- **Heap** (`src/heap.rs`). `UnsizedValue` is `String`, `List`, `Object`,
  `Function` or the tombstone `Empty`. `Heap` is an append-only vector, and
  an address is an index into it.
- **Collector** (`src/gc.rs`). The roots are the `Address` values on the
  stack. Marking takes each root's slot and, when that slot is an `Object` or
  a `List`, every address held directly inside it. Marking goes one level
  deep only. The sweep then overwrites every unmarked slot with `Empty`.
- **Variable store** (`src/store.rs`). A stack of name-to-value scopes.
  `set` and `get` act on the innermost scope only.

Modules, one per component:

| file | module |
|---|---|
| common.dfy | `Common` |
| opcodes.dfy | `OpCodes` |
| values.dfy | `Values` |
| stack.dfy | `Stacks` |
| heap.dfy | `Heaps` |
| gc.dfy | `Collector` |
| store.dfy | `Stores` |

- `Common` holds the fixed-width integer types `i32`, `i64` and `usize`. It
  also holds `Result`/`Outcome` and the `Panic` reasons. Every Rust `panic!`,
  failing `unwrap` and arithmetic overflow becomes a `Fail(...)` or
  `Aborted(...)` value. On a panic path the state is left unchanged.
- `OpCodes` is the behaviour-free instruction enum. It is used only as the
  payload type of a heap `Function`.

Modelling choices:

- **Integer arithmetic.** It follows a debug build: `+ - *` and unary `-`
  panic with `Overflow` when the exact result leaves the i64 range. `/` and
  `%` round toward zero, as Rust does, not Euclidean like Dafny. A zero
  divisor panics with `DivisionByZero`. Both `i64::MIN / -1` and
  `i64::MIN % -1` panic with `Overflow`.
- **`as_usize`.** It is the `i64 as usize` cast, so a negative value wraps to
  value + 2^64.
- **`F64` payload.** It is kept as its IEEE 754 sign bit plus the 63 bits
  below it, read as an unsigned integer. Rust's `f64` equality and
  `partial_cmp` are written out on that form: NaN equals nothing and has no
  ordering, and +0.0 equals -0.0.
- **`FunctionPtr` payload.** It is an opaque `NativeFn` token.
- **Stateful entities.** `Stack`, `Heap` and `Store` are classes whose
  `seq` fields their methods reassign in place. The `Store` class also
  captures the sharing that `Arc` gives a cloned store.
- **Collector split.** The collector is two parts:
  - `Mark` is the mark loop over the stack, with one helper loop per
    container kind. Object keys are visited in an arbitrary order, which
    stands for `HashMap` iteration.
  - `Gc` runs `Mark` and then the in-place sweep loop.
- **Specification functions.** `Gc` is proved against the function
  `Collect`, and the store methods against `Assign`, `Lookup`, `PushScope`
  and `PopScope`. The liveness, failure and idempotence properties are lemmas
  about these functions.

Facts about the collector and the store, as the code has them:

- `gc` takes the stack and the heap only, so the collector's roots are the
  stack's `Address` values and nothing else. With no `Address` on the stack
  every slot becomes `Empty` (`NoRootsClearEverything`).
- Marking is one level deep (`SecondLevelIsCleared`).
- The heap length never changes: the sweep overwrites, it does not remove.
- The store is a stack of name-keyed scopes.
- A dangling root panics with `AddressOutOfRange`. This matches the
  `unwrap` of `Vec::get` in `src/gc.rs:13`.

## Model

| member | source | states |
|---|---|---|
| `Values.Eq` | src/stack.rs:28-39 | equal values are of one variant and never `FunctionPtr` |
| `Values.EqIsPayloadEquality` | src/stack.rs:28-39 | equality is same-variant payload equality (IEEE for floats); `FunctionPtr` is unequal even to itself, and so is a NaN; equality is symmetric |
| `Values.PartialCmp` | src/stack.rs:41-52 | an ordering exists exactly within one non-`FunctionPtr` variant, except that a NaN float has none; `Null` vs `Null` is `Equal` |
| `Values.CmpIsNumericOrder` | src/stack.rs:41-52 | `I64` and `Address` pairs are ordered numerically (`Less`, `Equal`, `Greater` each exactly when `<`, `==`, `>`); `false < true` |
| `Values.FloatEqAgreesWithCmp` | src/stack.rs:28-52 | on f64 payloads `==` holds exactly when `partial_cmp` gives `Equal` |
| `Values.EqAgreesWithCmp` | src/stack.rs:28-52 | `eq` holds exactly when `partial_cmp` gives `Some(Equal)` |
| `Values.FloatCmpIsAntisymmetric` | src/stack.rs:45 | swapping two floats reverses their ordering; NaN stays unordered |
| `Values.CmpIsAntisymmetric` | src/stack.rs:41-52 | swapping operands reverses the ordering; cross-variant pairs stay `None` |
| `Values.AsAddress` | src/stack.rs:69-74 | succeeds exactly on an `Address`, returning its payload; otherwise panics |
| `Values.AsUsize` | src/stack.rs:76-81 | succeeds exactly on an `I64`; result congruent to it modulo 2^64, equal when non-negative |
| `Values.AsBool` | src/stack.rs:83-88 | succeeds exactly on a `Bool`, returning its payload; otherwise panics |
| `Values.Add` | src/stack.rs:91-100 | two `I64`s give their exact sum or an overflow panic; any other operand is a type mismatch |
| `Values.Sub` | src/stack.rs:102-111 | left operand minus right operand, with the same panics |
| `Values.Mul` | src/stack.rs:113-122 | exact product or overflow; type mismatch otherwise |
| `Values.Div` | src/stack.rs:124-133 | zero divisor panics; otherwise the quotient rounded toward zero, or overflow |
| `Values.Rem` | src/stack.rs:135-144 | zero divisor panics; `i64::MIN % -1` panics with `Overflow`, and every other nonzero divisor succeeds with the truncated remainder |
| `Values.Neg` | src/stack.rs:146-155 | only `I64`; the exact negation or overflow |
| `Values.Not` | src/stack.rs:157-166 | succeeds exactly on a `Bool`, giving its negation |
| `Values.BitAnd` | src/stack.rs:168-177 | succeeds exactly on two `Bool`s, giving their conjunction |
| `Values.BitOr` | src/stack.rs:179-188 | succeeds exactly on two `Bool`s, giving their disjunction |
| `Values.TruncDivRem` | src/stack.rs:129-140 | Rust's `/` and `%` satisfy a = b*q + r with abs(r) < abs(b), r signed like a, and abs(q) <= abs(a) |
| `Values.DivRemIdentity` | src/stack.rs:124-144 | `/` and `%` fail together; their results rebuild the dividend, the remainder is below the divisor and signed like the dividend |
| `Values.DivOverflowsOnlyAtMin` | src/stack.rs:124-133 | with a nonzero divisor, the quotient overflows exactly for `i64::MIN / -1` |
| `Values.SubUndoesAdd` | src/stack.rs:91-111 | `(x + y) - y == x` and `(x - y) + y == x` whenever the first step succeeds |
| `Values.OperatorsCommute` | src/stack.rs:91-188 | `+`, `*`, `&` and bool-or are commutative, panics included |
| `Values.NegIsSubFromZero` | src/stack.rs:102-155 | `-x` is `0 - x` on `I64`, and negation undoes itself when it succeeds |
| `Values.NotAndIsOrNot` | src/stack.rs:157-188 | `!` undoes itself; not of (x and y) is (not x) or (not y) |
| `Stacks.Popped` | src/stack.rs:205-207 | popping an empty stack panics and keeps it; otherwise the rest plus the returned top rebuilds the stack |
| `Stacks.PopUndoesPush` | src/stack.rs:201-207 | `push(v)` then `pop()` returns `v` and restores the previous contents |
| `Stacks.Stack.constructor` | src/stack.rs:196-199 | a new stack is empty |
| `Stacks.Stack.Push` | src/stack.rs:201-203 | appends the value on top |
| `Stacks.Stack.Pop` | src/stack.rs:205-207 | returns the top and removes it, or panics on an empty stack |
| `Heaps.AsFunction` | src/heap.rs:16-21 | succeeds exactly on a `Function`, returning its code |
| `Heaps.AsString` | src/heap.rs:23-28 | succeeds exactly on a `String`, returning its text |
| `Heaps.EmptyIsNoPayload` | src/heap.rs:16-28 | both accessors panic on the tombstone `Empty` |
| `Heaps.Heap.constructor` | src/heap.rs:38-40 | a new heap is empty |
| `Heaps.Heap.Get` | src/heap.rs:55-57 | succeeds exactly below the length, with that slot; panics otherwise |
| `Heaps.Heap.Alloc` | src/heap.rs:42-45 | appends, returns the old length, `get` there yields the value, earlier slots unchanged |
| `Heaps.Heap.Push` | src/heap.rs:47-49 | appends one slot, earlier slots unchanged |
| `Heaps.Heap.Pop` | src/heap.rs:51-53 | removes and returns the last slot; panics on an empty heap |
| `Collector.MarkItems` | src/gc.rs:26-35 | adds to the mark list exactly the addresses among a list's items |
| `Collector.MarkFields` | src/gc.rs:16-25 | adds to the mark list exactly the addresses among an object's entries |
| `Collector.Mark` | src/gc.rs:8-41 | fails exactly when a stack root lies beyond the heap; otherwise marks exactly the mark set `MarkedBy` |
| `Collector.Gc` | src/gc.rs:4-48 | stack unchanged; heap becomes `Collect(stack, heap)`, or stays as it was with a panic on a dangling root |
| `Collector.MarkedByIff` | src/gc.rs:9-41 | a slot is marked exactly when some stack entry marks it (as root or as a root container's child) |
| `Collector.CollectFailsOnlyOnDanglingRoot` | src/gc.rs:9-13 | collection panics exactly when a stack `Address` is beyond the heap; container contents never cause failure; length unchanged |
| `Collector.SlotFate` | src/gc.rs:43-47 | each slot keeps its exact value when reached from the stack, and becomes `Empty` otherwise |
| `Collector.RootsSurvive` | src/gc.rs:9-12 | every slot named by a stack `Address` keeps its exact value |
| `Collector.FieldTargetsSurvive` | src/gc.rs:15-25 | addresses inside a root `Object`'s entries survive |
| `Collector.ItemTargetsSurvive` | src/gc.rs:26-35 | addresses inside a root `List`'s items survive |
| `Collector.UnreachedSlotsCleared` | src/gc.rs:43-46 | a slot neither named by a root nor held by a root's container becomes `Empty` |
| `Collector.NonContainerMarksItself` | src/gc.rs:36 | a root naming a `String`, `Function` or `Empty` slot marks only its own index |
| `Collector.NoRootsClearEverything` | src/gc.rs:9-47 | with no `Address` on the stack every slot becomes `Empty` |
| `Collector.SecondLevelIsCleared` | src/gc.rs:15-37 | a slot reachable only through two containers is cleared |
| `Collector.MarkedBySameRootSlots` | src/gc.rs:9-41 | the mark set depends on the heap only through the root slots |
| `Collector.CollectIsIdempotent` | src/gc.rs:9-47 | a second collection with the same stack leaves the heap unchanged |
| `Stores.Store.constructor` | src/store.rs:12-16 | a new store has no scopes |
| `Stores.Store.Set` | src/store.rs:18-21 | binds the key in the innermost scope, or panics when there is none |
| `Stores.Store.Get` | src/store.rs:23-26 | returns the innermost scope's binding; panics on no scope or an unbound key |
| `Stores.Store.Push` | src/store.rs:28-30 | adds an empty innermost scope |
| `Stores.Store.Pop` | src/store.rs:32-34 | drops the innermost scope; does nothing, without panicking, when there is none |
| `Stores.NoScopeFails` | src/store.rs:18-34 | with no scope `set` and `get` panic and `pop` changes nothing |
| `Stores.GetAfterSet` | src/store.rs:18-26 | `get(k)` after `set(k, v)` returns `v` |
| `Stores.SetOverwrites` | src/store.rs:18-21 | `set(k, w)` after `set(k, v)` is the same as `set(k, w)` alone |
| `Stores.SetChangesOnlyKey` | src/store.rs:18-21 | `set` keeps the scope count, every outer scope, every other key and every other lookup |
| `Stores.LookupSeesInnermostOnly` | src/store.rs:23-26 | `get` ignores outer scopes and panics if the innermost lacks the key |
| `Stores.PopUndoesPush` | src/store.rs:28-34 | `push` adds an empty scope; `pop` after `push` restores the scopes exactly |

## Left out

- Concurrency is left out: the collector thread, `park`/`unpark`, the
  `Mutex` locks and lock poisoning after a panic. The demo mutator in
  `src/vm.rs` and the entry point in `src/main.rs` are not part of this
  model. A collection is modelled as one atomic step.
- No opcode is interpreted, because the repository has no interpreter.
  `OpCode` is only the payload type of a `Function`.
- Floating-point arithmetic is left out, because the source has none. Only
  f64 equality and ordering are modelled.
- `Display`/`Debug` formatting and panic messages are left out, because they
  are output text only.
- Release-build wrap-around of `+ - *` and unary `-` is left out. The model
  follows debug-build overflow panics.
- `Heaps.Heap.Alloc` returns an unbounded `nat`. It does not model the `Vec`
  capacity overflow at `isize::MAX` elements.
- The accessors return their payloads by value, not by reference.
- `Stack::new`'s initial capacity of 100 is left out, because it does not
  change behaviour.
