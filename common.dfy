/** Definitions shared by every component: Rust's fixed-width integer types,
    the reasons a core operation panics, and the value-or-panic wrappers that
    stand for `panic!` and `unwrap`. */
module Common {

  newtype i32 = x: int | -0x8000_0000 <= x < 0x8000_0000
  newtype i64 = x: int | -0x8000_0000_0000_0000 <= x < 0x8000_0000_0000_0000
  /** A 64-bit target's `usize`. */
  newtype usize = x: int | 0 <= x < 0x1_0000_0000_0000_0000

  datatype Option<T> = None | Some(value: T)

  /** Why an operation of the core panics. */
  datatype Panic =
    | TypeMismatch       // an accessor or operator applied to a variant it does not accept
    | Overflow           // an i64 result outside the i64 range (debug-build arithmetic)
    | DivisionByZero     // `/` or `%` with a zero divisor
    | EmptyStack         // `Stack::pop` on an empty stack
    | EmptyHeap          // `Heap::pop` on an empty heap
    | AddressOutOfRange  // a heap index at or beyond the heap length
    | NoScope            // `Store::set`/`Store::get` while no scope is pushed
    | UnboundName        // `Store::get` of a key the innermost scope does not bind

  /** A value, or the panic that replaces it. */
  datatype Result<T> = Ok(value: T) | Fail(panic: Panic)

  /** Completion of an operation that returns nothing. */
  datatype Outcome = Done | Aborted(panic: Panic)
}
