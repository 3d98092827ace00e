/** Values, their run-time variants, and the primitive calculations on them. Integer, boolean and
    string calculations are exact; floating-point, decimal and library ones are parameters. */
module Operands {

  datatype Result<+T> = Ok(value: T) | Err(error: Fault) {
    predicate IsFailure() { Err? }
    function PropagateFailure<U>(): Result<U>
      requires Err?
    {
      Err(error)
    }
    function Extract(): T
      requires Ok?
    {
      value
    }
  }

  /** Why an evaluation does not finish. The first two come from badly typed code; `BadIndex`
      from a tuple that is too short; the others depend on the data. */
  datatype Fault =
    | StackUnderflow
    | WrongVariant
    | NoTuple
    | BadIndex
    | ExceedsLimits
    | LibraryFault   // a library function throws: a substring past the end, a number out of range
    | Undefined      // signed 32-bit overflow and the trapping remainder
    | UnknownCode
    | Malformed      // input the decoder reads past or past its tables
    | MoreElementsRequired

  type byte = b: int | 0 <= b < 256
  type int32 = v: int | -0x8000_0000 <= v < 0x8000_0000
  type int64 = v: int | -0x8000_0000_0000_0000 <= v < 0x8000_0000_0000_0000

  /** A float or double is its bit pattern, and a decimal an unexamined value. */
  type Float32 = v: int | 0 <= v < 0x1_0000_0000
  type Float64 = v: int | 0 <= v < 0x1_0000_0000_0000_0000
  type Decimal = int

  predicate FitsInt32(v: int) { -0x8000_0000 <= v < 0x8000_0000 }
  predicate FitsInt64(v: int) { -0x8000_0000_0000_0000 <= v < 0x8000_0000_0000_0000 }

  datatype Operand =
    | Null
    | Int32(i: int32)
    | Int64(l: int64)
    | Bool(b: bool)
    | Float(f: Float32)
    | Double(d: Float64)
    | Decimal(dec: Decimal)
    | String(s: seq<byte>)

  type Tuple = seq<Operand>

  /** The types of the encoding, in the order of their codes 1 to 9. */
  datatype Type = INT32 | INT64 | BOOL | FLOAT | DOUBLE | DECIMAL | STRING | DATE | TIMESTAMP {
    function Code(): byte {
      match this
      case INT32 => 1 case INT64 => 2 case BOOL => 3 case FLOAT => 4 case DOUBLE => 5
      case DECIMAL => 6 case STRING => 7 case DATE => 8 case TIMESTAMP => 9
    }

    /** Dates and timestamps are held as 64-bit integers. */
    function Variant(): Variant {
      match this
      case INT32 => VInt32 case INT64 => VInt64 case BOOL => VBool case FLOAT => VFloat case DOUBLE => VDouble
      case DECIMAL => VDecimal case STRING => VString case DATE => VInt64 case TIMESTAMP => VInt64
    }
  }

  datatype Variant = VInt32 | VInt64 | VBool | VFloat | VDouble | VDecimal | VString

  /** A non-null operand holds one variant; NULL is compatible with every one. */
  predicate Conforms(v: Operand, t: Variant) {
    match v
    case Null => true
    case Int32(_) => t == VInt32
    case Int64(_) => t == VInt64
    case Bool(_) => t == VBool
    case Float(_) => t == VFloat
    case Double(_) => t == VDouble
    case Decimal(_) => t == VDecimal
    case String(_) => t == VString
  }

  /** An integer of one of the two widths. */
  predicate FitsWidth(wide: bool, z: int) { if wide then FitsInt64(z) else FitsInt32(z) }

  function Integer(wide: bool, z: int): Operand
    requires FitsWidth(wide, z)
  {
    if wide then Int64(z) else Int32(z)
  }

  /** The exact result, or what happens when it does not fit. */
  function Exact(wide: bool, z: int, overflow: Fault): Result<Operand> {
    if FitsWidth(wide, z) then Ok(Integer(wide, z)) else Err(overflow)
  }

  // ---------- primitive calculations ----------

  datatype Calc = Pos | Neg | Add | Sub | Mul | Div | Mod | Min | Max | Abs | AbsCheck | Eq | Ge | Gt | Le | Lt | Ne {
    predicate Relational() { Eq? || Ge? || Gt? || Le? || Lt? || Ne? }
  }

  /** Floating-point, decimal and library arithmetic, whatever it is. Unary calculations are given
      their argument twice. */
  datatype Prims = Prims(
    floats: (Calc, Float32, Float32) -> Float32,
    doubles: (Calc, Float64, Float64) -> Float64,
    decimals: (Calc, Decimal, Decimal) -> Decimal,
    floatTest: (Calc, Float32, Float32) -> bool,
    doubleTest: (Calc, Float64, Float64) -> bool,
    decimalTest: (Calc, Decimal, Decimal) -> bool,
    floatTrue: Float32 -> bool,
    doubleTrue: Float64 -> bool,
    decimalTrue: Decimal -> bool,
    floatZero: Float32 -> bool,
    doubleZero: Float64 -> bool,
    decimalZero: Decimal -> bool,
    intDouble: int64 -> Float64,
    decimalOf: seq<byte> -> Result<Decimal>,
    toInt32: (bool, Operand) -> Result<int32>,
    toInt64: (bool, Operand) -> Result<int64>,
    toBool: Operand -> Result<bool>,
    toFloat: Operand -> Result<Float32>,
    toDouble: Operand -> Result<Float64>,
    toDecimal: Operand -> Result<Decimal>,
    toStr: Operand -> seq<byte>,
    doubleFun: (byte, Float64) -> Float64,
    stringFun: (byte, seq<Operand>) -> Result<seq<byte>>,
    intFun: (byte, seq<Operand>) -> Result<int32>)

  /** A library function either returns or throws; the checked casts throw their own exception. */
  function FromLibrary<T>(r: Result<T>): (q: Result<T>)
    ensures r.Ok? ==> q == r
    ensures r.Err? ==> q == Err(ExceedsLimits) || q == Err(LibraryFault)
  {
    if r.Err? && !r.error.ExceedsLimits? then Err(LibraryFault) else r
  }

  /** Integer comparison. */
  predicate Compare(c: Calc, x: int, y: int)
    requires c.Relational()
  {
    match c
    case Eq => x == y case Ge => x >= y case Gt => x > y
    case Le => x <= y case Lt => x < y case Ne => x != y
  }

  /** Lexicographic order of unsigned bytes. */
  function CompareBytes(x: seq<byte>, y: seq<byte>): int {
    if x == [] then (if y == [] then 0 else -1)
    else if y == [] then 1
    else if x[0] != y[0] then x[0] - y[0]
    else CompareBytes(x[1..], y[1..])
  }

  /** Remainder of division truncated toward zero. */
  function TruncatedMod(x: int, y: int): int
    requires y != 0
  {
    var m := (if x < 0 then -x else x) % (if y < 0 then -y else y);
    if x < 0 then -m else m
  }

  function Arith(c: Calc, x: int, y: int): int {
    match c
    case Neg => -x case Add => x + y case Sub => x - y case Mul => x * y
    case Min => if y < x then y else x
    case Max => if x < y then y else x
    case Abs => if x < 0 then -x else x
    case AbsCheck => if x < 0 then -x else x
    case _ => x
  }

  /** 32-bit arithmetic overflows without a check, except AbsCheck, which throws. */
  function Int32Result(c: Calc, x: int): Result<Operand> {
    if FitsInt32(x) then Ok(Int32(x)) else if c.AbsCheck? then Err(ExceedsLimits) else Err(Undefined)
  }

  /** 64-bit addition, subtraction, multiplication and AbsCheck throw when they do not fit. */
  function Int64Result(c: Calc, x: int): Result<Operand> {
    if FitsInt64(x) then Ok(Int64(x))
    else if c.Add? || c.Sub? || c.Mul? || c.AbsCheck? then Err(ExceedsLimits)
    else Err(Undefined)
  }

  /** A unary or binary calculation on two values of the same variant. */
  function Calculate(p: Prims, c: Calc, v: Operand, w: Operand): Result<Operand> {
    match (v, w)
    case (Int32(x), Int32(y)) =>
      if c.Relational() then Ok(Bool(Compare(c, x, y))) else Int32Result(c, Arith(c, x, y))
    case (Int64(x), Int64(y)) =>
      if c.Relational() then Ok(Bool(Compare(c, x, y))) else Int64Result(c, Arith(c, x, y))
    case (Bool(x), Bool(y)) =>
      var m, n := if x then 1 else 0, if y then 1 else 0;
      Ok(Bool(if c.Relational() then Compare(c, m, n) else Arith(c, m, n) != 0))
    case (Float(x), Float(y)) =>
      Ok(if c.Relational() then Bool(p.floatTest(c, x, y)) else Float(p.floats(c, x, y)))
    case (Double(x), Double(y)) =>
      Ok(if c.Relational() then Bool(p.doubleTest(c, x, y)) else Double(p.doubles(c, x, y)))
    case (Decimal(x), Decimal(y)) =>
      Ok(if c.Relational() then Bool(p.decimalTest(c, x, y)) else Decimal(p.decimals(c, x, y)))
    case (String(x), String(y)) =>
      var o := CompareBytes(x, y);
      Ok(if c.Relational() then Bool(Compare(c, o, 0))
         else String(match c case Min => if o > 0 then y else x case Max => if o < 0 then y else x case _ => x + y))
    case _ => Err(WrongVariant)
  }

  /** Division and remainder: NULL when the divisor is zero, and a double for integer division. */
  function DivMod(p: Prims, c: Calc, v: Operand, w: Operand): Result<Operand> {
    match (v, w)
    case (Int32(x), Int32(y)) =>
      if y == 0 then Ok(Null)
      else if c.Div? then Ok(Double(p.doubles(Div, p.intDouble(x), p.intDouble(y))))
      else if x == -0x8000_0000 && y == -1 then Err(Undefined)
      else ModFits32(x, y); Ok(Int32(TruncatedMod(x, y)))
    case (Int64(x), Int64(y)) =>
      if y == 0 then Ok(Null)
      else if c.Div? then Ok(Double(p.doubles(Div, p.intDouble(x), p.intDouble(y))))
      else if x == -0x8000_0000_0000_0000 && y == -1 then Err(Undefined)
      else ModFits64(x, y); Ok(Int64(TruncatedMod(x, y)))
    case (Float(x), Float(y)) => Ok(if p.floatZero(y) then Null else Float(p.floats(c, x, y)))
    case (Double(x), Double(y)) => Ok(if p.doubleZero(y) then Null else Double(p.doubles(c, x, y)))
    case (Decimal(x), Decimal(y)) => Ok(if p.decimalZero(y) then Null else Decimal(p.decimals(c, x, y)))
    case _ => Err(WrongVariant)
  }

  lemma ModFits32(x: int32, y: int32)
    requires y != 0
    ensures FitsInt32(TruncatedMod(x, y))
  {}

  lemma ModFits64(x: int64, y: int64)
    requires y != 0
    ensures FitsInt64(TruncatedMod(x, y))
  {}

  /** A non-null value taken as a truth value by IS_TRUE. */
  predicate Truthy(p: Prims, v: Operand) {
    match v
    case Null => false
    case Int32(x) => x != 0
    case Int64(x) => x != 0
    case Bool(x) => x
    case Float(x) => p.floatTrue(x)
    case Double(x) => p.doubleTrue(x)
    case Decimal(x) => p.decimalTrue(x)
    case String(_) => false
  }

  /** IS_FALSE follows the code: every string is false, and a decimal is tested like IS_TRUE. */
  predicate Falsy(p: Prims, v: Operand) {
    match v
    case Null => false
    case Decimal(x) => p.decimalTrue(x)
    case String(_) => true
    case _ => !Truthy(p, v)
  }

  /** A cast of a non-null value. */
  function Cast(p: Prims, check: bool, dst: Variant, v: Operand): Result<Operand> {
    match dst
    case VInt32 =>
      (match v
       case Int64(x) =>
         if FitsInt32(x) then Ok(Int32(x))
         else if check then Err(ExceedsLimits)
         else Ok(Int32(Wrap32(x)))
       case Bool(x) => Ok(Int32(if x then 1 else 0))
       case _ => var n :- FromLibrary(p.toInt32(check, v)); Ok(Int32(n)))
    case VInt64 =>
      (match v
       case Int32(x) => Ok(Int64(x))
       case Bool(x) => Ok(Int64(if x then 1 else 0))
       case _ => var n :- FromLibrary(p.toInt64(check, v)); Ok(Int64(n)))
    case VBool =>
      (match v
       case Int32(x) => Ok(Bool(x != 0))
       case Int64(x) => Ok(Bool(x != 0))
       case _ => var b :- FromLibrary(p.toBool(v)); Ok(Bool(b)))
    case VFloat => var f :- FromLibrary(p.toFloat(v)); Ok(Float(f))
    case VDouble => var d :- FromLibrary(p.toDouble(v)); Ok(Double(d))
    case VDecimal => var d :- FromLibrary(p.toDecimal(v)); Ok(Decimal(d))
    case VString => Ok(String(p.toStr(v)))
  }

  function Wrap32(x: int): int32 {
    var m := x % 0x1_0000_0000;
    if m >= 0x8000_0000 then m - 0x1_0000_0000 else m
  }
}
