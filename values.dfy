/** The stack-resident value model, `SizedValue`: variant-wise equality and
    partial ordering, the `as_*` accessors, and the operator implementations
    (`+ - * / % unary- ! & |`), each of which panics on a variant it does not
    accept. */
module Values {
  import opened Common

  const I64_MIN: int := -0x8000_0000_0000_0000
  const I64_MAX: int := 0x7FFF_FFFF_FFFF_FFFF
  const USIZE_MODULUS: int := 0x1_0000_0000_0000_0000

  predicate InI64(x: int) { I64_MIN <= x <= I64_MAX }

  function Abs(x: int): nat { if x < 0 then -x else x }

  // ---------------------------------------------------------------------------
  // f64 payloads

  /** An IEEE 754 binary64 value, as its sign bit and the 63 bits below it
      read as an unsigned integer (biased exponent * 2^52 + fraction). */
  datatype Float64 = Float64(negative: bool, magnitude: Bits63)

  newtype Bits63 = x: int | 0 <= x < 0x8000_0000_0000_0000

  /** The magnitude of an infinity: all exponent bits set, fraction zero. */
  const INFINITY_MAGNITUDE: int := 0x7FF0_0000_0000_0000

  /** All exponent bits set and a nonzero fraction. */
  predicate IsNaN(f: Float64) { f.magnitude as int > INFINITY_MAGNITUDE }
  /** +0.0 or -0.0. */
  predicate IsZero(f: Float64) { f.magnitude == 0 }

  datatype Ordering = Less | Equal | Greater {
    function Reverse(): Ordering {
      match this
      case Less => Greater
      case Equal => Equal
      case Greater => Less
    }
  }

  function ReverseOption(o: Option<Ordering>): Option<Ordering> {
    match o
    case None => None
    case Some(c) => Some(c.Reverse())
  }

  function CompareInts(a: int, b: int): Ordering {
    if a < b then Less else if a == b then Equal else Greater
  }

  /** Rust's `f64 == f64`: a NaN equals nothing, and +0.0 equals -0.0. */
  predicate FloatEq(a: Float64, b: Float64) {
    !IsNaN(a) && !IsNaN(b) && (a == b || (IsZero(a) && IsZero(b)))
  }

  /** Rust's `f64::partial_cmp`: no answer when either side is NaN, otherwise
      the order of the real numbers the bit patterns denote. */
  function FloatCmp(a: Float64, b: Float64): Option<Ordering> {
    if IsNaN(a) || IsNaN(b) then None
    else if IsZero(a) && IsZero(b) then Some(Equal)
    else if a.negative != b.negative then Some(if a.negative then Less else Greater)
    else if a.negative then Some(CompareInts(b.magnitude as int, a.magnitude as int))
    else Some(CompareInts(a.magnitude as int, b.magnitude as int))
  }

  // ---------------------------------------------------------------------------
  // SizedValue

  /** An opaque handle standing for a native `fn(&mut Vm)` pointer. */
  datatype NativeFn = NativeFn(id: nat)

  datatype SizedValue =
    | I64(int64: i64)
    | F64(float64: Float64)
    | Bool(flag: bool)
    | Address(address: usize)
    | FunctionPtr(native: NativeFn)
    | Null

  function Variant(v: SizedValue): nat {
    match v
    case I64(_) => 0
    case F64(_) => 1
    case Bool(_) => 2
    case Address(_) => 3
    case FunctionPtr(_) => 4
    case Null => 5
  }

  predicate SameVariant(x: SizedValue, y: SizedValue) { Variant(x) == Variant(y) }

  /** `PartialEq::eq`: payload equality within one variant; a `FunctionPtr` equals nothing. */
  function Eq(x: SizedValue, y: SizedValue): (r: bool)
    ensures r ==> SameVariant(x, y) && !x.FunctionPtr?
  {
    match (x, y)
    case (I64(a), I64(b)) => a == b
    case (F64(a), F64(b)) => FloatEq(a, b)
    case (Bool(a), Bool(b)) => a == b
    case (Address(a), Address(b)) => a == b
    case (Null, Null) => true
    case _ => false
  }

  /** `PartialOrd::partial_cmp`: an ordering only between two values of one
      variant other than `FunctionPtr`; `false < true`; `Null` vs `Null` is `Equal`. */
  function PartialCmp(x: SizedValue, y: SizedValue): (r: Option<Ordering>)
    ensures r.Some? ==> SameVariant(x, y) && !x.FunctionPtr?
    ensures SameVariant(x, y) && !x.FunctionPtr? && !x.F64? ==> r.Some?
    ensures x.F64? && y.F64? ==> (r.Some? <==> !IsNaN(x.float64) && !IsNaN(y.float64))
    ensures x.Null? && y.Null? ==> r == Some(Equal)
  {
    match (x, y)
    case (I64(a), I64(b)) => Some(CompareInts(a as int, b as int))
    case (F64(a), F64(b)) => FloatCmp(a, b)
    case (Bool(a), Bool(b)) => Some(CompareInts(if a then 1 else 0, if b then 1 else 0))
    case (Address(a), Address(b)) => Some(CompareInts(a as int, b as int))
    case (Null, Null) => Some(Equal)
    case _ => None
  }

  /** Equality is payload equality, except that floats follow IEEE 754 and
      function pointers are never equal, not even to themselves. */
  lemma EqIsPayloadEquality(x: SizedValue, y: SizedValue)
    ensures Eq(x, y) <==>
      (x == y && !x.FunctionPtr? && !x.F64?) || (x.F64? && y.F64? && FloatEq(x.float64, y.float64))
    ensures Eq(x, x) <==> !x.FunctionPtr? && !(x.F64? && IsNaN(x.float64))
    ensures Eq(x, y) == Eq(y, x)
  {
  }

  /** On floats, `==` and `partial_cmp(..) == Some(Equal)` agree. */
  lemma FloatEqAgreesWithCmp(a: Float64, b: Float64)
    ensures FloatEq(a, b) <==> FloatCmp(a, b) == Some(Equal)
  {
  }

  /** Rust requires `partial_cmp(a, b) == Some(Equal)` exactly when `a == b`;
      the two implementations agree. */
  lemma EqAgreesWithCmp(x: SizedValue, y: SizedValue)
    ensures Eq(x, y) <==> PartialCmp(x, y) == Some(Equal)
  {
    if x.F64? && y.F64? {
      FloatEqAgreesWithCmp(x.float64, y.float64);
    }
  }

  /** Swapping two floats reverses their ordering. */
  lemma FloatCmpIsAntisymmetric(a: Float64, b: Float64)
    ensures FloatCmp(b, a) == ReverseOption(FloatCmp(a, b))
  {
  }

  /** Integers and addresses are ordered numerically, and `false < true`. */
  lemma CmpIsNumericOrder(x: SizedValue, y: SizedValue)
    ensures x.I64? && y.I64? ==>
      && (PartialCmp(x, y) == Some(Less) <==> x.int64 < y.int64)
      && (PartialCmp(x, y) == Some(Equal) <==> x.int64 == y.int64)
      && (PartialCmp(x, y) == Some(Greater) <==> x.int64 > y.int64)
    ensures x.Address? && y.Address? ==>
      && (PartialCmp(x, y) == Some(Less) <==> x.address < y.address)
      && (PartialCmp(x, y) == Some(Equal) <==> x.address == y.address)
      && (PartialCmp(x, y) == Some(Greater) <==> x.address > y.address)
    ensures x.Bool? && y.Bool? ==>
      (PartialCmp(x, y) == Some(Less) <==> !x.flag && y.flag)
  {
  }

  /** Swapping the operands reverses the ordering (and keeps "no ordering"). */
  lemma CmpIsAntisymmetric(x: SizedValue, y: SizedValue)
    ensures PartialCmp(y, x) == ReverseOption(PartialCmp(x, y))
  {
    if x.F64? && y.F64? {
      FloatCmpIsAntisymmetric(x.float64, y.float64);
    }
  }

  // ---------------------------------------------------------------------------
  // Accessors

  /** `as_address`: the payload of an `Address`, a panic for every other variant. */
  function AsAddress(v: SizedValue): (r: Result<usize>)
    ensures r.Ok? <==> v.Address?
    ensures r.Ok? ==> v == Address(r.value)
    ensures r.Fail? ==> r.panic == TypeMismatch
  {
    match v
    case Address(a) => Ok(a)
    case _ => Fail(TypeMismatch)
  }

  /** `as_bool`: the payload of a `Bool`, a panic for every other variant. */
  function AsBool(v: SizedValue): (r: Result<bool>)
    ensures r.Ok? <==> v.Bool?
    ensures r.Ok? ==> v == Bool(r.value)
    ensures r.Fail? ==> r.panic == TypeMismatch
  {
    match v
    case Bool(b) => Ok(b)
    case _ => Fail(TypeMismatch)
  }

  /** `as_usize`: only an `I64` converts, by the `i64 as usize` cast, which
      keeps the two's-complement bits (a negative value wraps to value + 2^64). */
  function AsUsize(v: SizedValue): (r: Result<usize>)
    ensures r.Ok? <==> v.I64?
    ensures r.Ok? ==> (r.value as int - v.int64 as int) % USIZE_MODULUS == 0
    ensures r.Ok? && v.int64 >= 0 ==> r.value as int == v.int64 as int
    ensures r.Fail? ==> r.panic == TypeMismatch
  {
    match v
    case I64(i) => Ok((if i >= 0 then i as int else i as int + USIZE_MODULUS) as usize)
    case _ => Fail(TypeMismatch)
  }

  // ---------------------------------------------------------------------------
  // Operators

  /** An exact integer result as an `I64`, or the overflow panic of debug-build arithmetic. */
  function Checked(x: int): (r: Result<SizedValue>)
    ensures r.Ok? <==> InI64(x)
    ensures r.Ok? ==> r.value.I64? && r.value.int64 as int == x
    ensures r.Fail? ==> r.panic == Overflow
  {
    if InI64(x) then Ok(I64(x as i64)) else Fail(Overflow)
  }

  /** The integer operators accept two `I64`s and nothing else. */
  predicate IntOperands(x: SizedValue, y: SizedValue) { x.I64? && y.I64? }

  /** `x + y`. */
  function Add(x: SizedValue, y: SizedValue): (r: Result<SizedValue>)
    ensures !IntOperands(x, y) ==> r == Fail(TypeMismatch)
    ensures IntOperands(x, y) ==> r == Checked(x.int64 as int + y.int64 as int)
  {
    match (x, y)
    case (I64(a), I64(b)) => Checked(a as int + b as int)
    case _ => Fail(TypeMismatch)
  }

  /** `x - y`: the left operand is the minuend. */
  function Sub(x: SizedValue, y: SizedValue): (r: Result<SizedValue>)
    ensures !IntOperands(x, y) ==> r == Fail(TypeMismatch)
    ensures IntOperands(x, y) ==> r == Checked(x.int64 as int - y.int64 as int)
  {
    match (x, y)
    case (I64(a), I64(b)) => Checked(a as int - b as int)
    case _ => Fail(TypeMismatch)
  }

  /** `x * y`. */
  function Mul(x: SizedValue, y: SizedValue): (r: Result<SizedValue>)
    ensures !IntOperands(x, y) ==> r == Fail(TypeMismatch)
    ensures IntOperands(x, y) ==> r == Checked(x.int64 as int * y.int64 as int)
  {
    match (x, y)
    case (I64(a), I64(b)) => Checked(a as int * b as int)
    case _ => Fail(TypeMismatch)
  }

  /** Rust's integer `/`: the quotient rounded toward zero. */
  function TruncDiv(a: int, b: int): int
    requires b != 0
  {
    var q := Abs(a) / Abs(b);
    if (a < 0) == (b < 0) then q else -q
  }

  /** Rust's integer `%`: the remainder takes the sign of the dividend. */
  function TruncRem(a: int, b: int): int
    requires b != 0
  {
    var m := Abs(a) % Abs(b);
    if a < 0 then -m else m
  }

  lemma NegatedProduct(x: int, y: int)
    ensures (-x) * y == -(x * y) && x * (-y) == -(x * y)
  {
  }

  lemma ScaledUp(d: int, q: int)
    requires d >= 1 && q >= 0
    ensures q <= d * q
  {
    assert (d - 1) * q >= 0;
  }

  /** Dividing a natural number by a positive one leaves a quotient no larger than it. */
  lemma QuotientBound(n: nat, d: nat)
    requires d > 0
    ensures n == d * (n / d) + n % d && 0 <= n % d < d
    ensures 0 <= n / d <= n
  {
    ScaledUp(d, n / d);
  }

  /** Truncating division and remainder satisfy Rust's division identity. */
  lemma {:induction false} TruncDivRem(a: int, b: int)
    requires b != 0
    ensures a == b * TruncDiv(a, b) + TruncRem(a, b)
    ensures Abs(TruncRem(a, b)) < Abs(b)
    ensures TruncRem(a, b) == 0 || ((TruncRem(a, b) < 0) <==> (a < 0))
    ensures Abs(TruncDiv(a, b)) <= Abs(a)
  {
    var n: int, d: int := Abs(a), Abs(b);
    var q, m := n / d, n % d;
    QuotientBound(n, d);
    NegatedProduct(b, q);
    NegatedProduct(d, q);
    if a < 0 {
      assert a == -(d * q) - m;
    } else {
      assert a == d * q + m;
    }
  }

  /** `x / y`: panics on a zero divisor and on `i64::MIN / -1`. */
  function Div(x: SizedValue, y: SizedValue): (r: Result<SizedValue>)
    ensures !IntOperands(x, y) ==> r == Fail(TypeMismatch)
    ensures IntOperands(x, y) && y.int64 == 0 ==> r == Fail(DivisionByZero)
    ensures IntOperands(x, y) && y.int64 != 0 ==> r == Checked(TruncDiv(x.int64 as int, y.int64 as int))
  {
    match (x, y)
    case (I64(a), I64(b)) => if b == 0 then Fail(DivisionByZero) else Checked(TruncDiv(a as int, b as int))
    case _ => Fail(TypeMismatch)
  }

  /** `x % y`: panics on a zero divisor and, like `/`, on `i64::MIN % -1`. */
  function Rem(x: SizedValue, y: SizedValue): (r: Result<SizedValue>)
    ensures !IntOperands(x, y) ==> r == Fail(TypeMismatch)
    ensures IntOperands(x, y) && y.int64 == 0 ==> r == Fail(DivisionByZero)
    ensures IntOperands(x, y) && x.int64 as int == I64_MIN && y.int64 == -1 ==> r == Fail(Overflow)
    ensures IntOperands(x, y) && y.int64 != 0 ==>
      (r.Fail? <==> x.int64 as int == I64_MIN && y.int64 == -1)
    ensures r.Ok? ==>
      && IntOperands(x, y) && r.value.I64? && y.int64 != 0
      && r.value.int64 as int == TruncRem(x.int64 as int, y.int64 as int)
  {
    match (x, y)
    case (I64(a), I64(b)) =>
      if b == 0 then Fail(DivisionByZero)
      else if a as int == I64_MIN && b == -1 then Fail(Overflow)
      else
        TruncDivRem(a as int, b as int);
        Ok(I64(TruncRem(a as int, b as int) as i64))
    case _ => Fail(TypeMismatch)
  }

  /** `-x`: only an `I64`, and `-i64::MIN` overflows. */
  function Neg(x: SizedValue): (r: Result<SizedValue>)
    ensures !x.I64? ==> r == Fail(TypeMismatch)
    ensures x.I64? ==> r == Checked(-(x.int64 as int))
  {
    match x
    case I64(a) => Checked(-(a as int))
    case _ => Fail(TypeMismatch)
  }

  /** `!x`: only a `Bool`. */
  function Not(x: SizedValue): (r: Result<SizedValue>)
    ensures r.Ok? <==> x.Bool?
    ensures r.Ok? ==> r.value == Bool(!x.flag)
    ensures r.Fail? ==> r.panic == TypeMismatch
  {
    match x
    case Bool(a) => Ok(Bool(!a))
    case _ => Fail(TypeMismatch)
  }

  /** `x & y`: only two `Bool`s; both operands are evaluated. */
  function BitAnd(x: SizedValue, y: SizedValue): (r: Result<SizedValue>)
    ensures r.Ok? <==> x.Bool? && y.Bool?
    ensures r.Ok? ==> r.value == Bool(x.flag && y.flag)
    ensures r.Fail? ==> r.panic == TypeMismatch
  {
    match (x, y)
    case (Bool(a), Bool(b)) => Ok(Bool(a && b))
    case _ => Fail(TypeMismatch)
  }

  /** `x | y`: only two `Bool`s; both operands are evaluated. */
  function BitOr(x: SizedValue, y: SizedValue): (r: Result<SizedValue>)
    ensures r.Ok? <==> x.Bool? && y.Bool?
    ensures r.Ok? ==> r.value == Bool(x.flag || y.flag)
    ensures r.Fail? ==> r.panic == TypeMismatch
  {
    match (x, y)
    case (Bool(a), Bool(b)) => Ok(Bool(a || b))
    case _ => Fail(TypeMismatch)
  }

  // ---------------------------------------------------------------------------
  // Algebra of the operators

  /** Subtraction undoes addition and addition undoes subtraction, whenever
      the first operation does not panic. */
  lemma SubUndoesAdd(x: SizedValue, y: SizedValue)
    ensures Add(x, y).Ok? ==> Sub(Add(x, y).value, y) == Ok(x)
    ensures Sub(x, y).Ok? ==> Add(Sub(x, y).value, y) == Ok(x)
  {
  }

  /** `+`, `*`, `&` and `|` do not depend on the order of their operands. */
  lemma OperatorsCommute(x: SizedValue, y: SizedValue)
    ensures Add(x, y) == Add(y, x) && Mul(x, y) == Mul(y, x)
    ensures BitAnd(x, y) == BitAnd(y, x) && BitOr(x, y) == BitOr(y, x)
  {
  }

  /** Negation is subtraction from zero, and undoes itself. */
  lemma NegIsSubFromZero(x: SizedValue)
    ensures x.I64? ==> Neg(x) == Sub(I64(0), x)
    ensures Neg(x).Ok? ==> Neg(Neg(x).value) == Ok(x)
  {
  }

  /** `!` undoes itself, and De Morgan's law links `&` and `|`. */
  lemma NotAndIsOrNot(x: SizedValue, y: SizedValue)
    ensures Not(x).Ok? ==> Not(Not(x).value) == Ok(x)
    ensures BitAnd(x, y).Ok? ==>
      Not(x).Ok? && Not(y).Ok? && Not(BitAnd(x, y).value) == BitOr(Not(x).value, Not(y).value)
  {
  }

  /** `/` and `%` fail together; when they succeed, quotient and remainder
      rebuild the dividend, and the remainder is smaller than the divisor and
      has the dividend's sign. */
  lemma DivRemIdentity(x: SizedValue, y: SizedValue)
    ensures Div(x, y).Ok? <==> Rem(x, y).Ok?
    ensures Div(x, y).Ok? ==>
      var q, r := Div(x, y).value.int64 as int, Rem(x, y).value.int64 as int;
      && x.int64 as int == q * y.int64 as int + r
      && Abs(r) < Abs(y.int64 as int)
      && (r == 0 || ((r < 0) <==> (x.int64 < 0)))
  {
    if IntOperands(x, y) && y.int64 != 0 {
      var a, b := x.int64 as int, y.int64 as int;
      TruncDivRem(a, b);
      DivOverflowsOnlyAtMin(x, y);
      assert b * TruncDiv(a, b) == TruncDiv(a, b) * b;
    }
  }

  /** The only i64 quotient that overflows is `i64::MIN / -1`. */
  lemma DivOverflowsOnlyAtMin(x: SizedValue, y: SizedValue)
    requires IntOperands(x, y) && y.int64 != 0
    ensures Div(x, y) == Fail(Overflow) <==> x.int64 as int == I64_MIN && y.int64 == -1
  {
    var a, b := x.int64 as int, y.int64 as int;
    var q := Abs(a) / Abs(b);
    TruncDivRem(a, b);
    if Div(x, y) == Fail(Overflow) {
      assert !InI64(TruncDiv(a, b));
      assert TruncDiv(a, b) == -I64_MIN && q == Abs(a);
      assert a == I64_MIN;
      assert Abs(b) * q <= Abs(a);
    }
  }
}
