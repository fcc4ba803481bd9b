/** Option and Result, the two failure-compatible wrappers the model uses in
    place of null references and .NET exceptions. */
module Wrappers {

  datatype Option<+T> = None | Some(value: T) {
    function GetOr(default: T): T {
      match this
      case Some(v) => v
      case None => default
    }
  }

  /** The kind of .NET exception an operation of the source throws. */
  datatype Fault =
    | ArgumentOutOfRange   // System.ArgumentOutOfRangeException
    | ArgumentNull         // System.ArgumentNullException
    | Argument             // any other System.ArgumentException
    | DuplicateKey         // System.ArgumentException from Dictionary.Add
    | NullReference        // System.NullReferenceException
    | DivideByZero         // System.DivideByZeroException
    | Overflow             // System.OverflowException
    | InvalidCast          // System.InvalidCastException
    | Target               // System.Reflection.TargetException (no instance)

  datatype Result<+T> = Ok(value: T) | Err(fault: Fault)
}

/** The 32-bit signed integers of C#: the range, unchecked wrap-around and the
    truncating remainder operator. */
module Int32 {
  const MinValue: int := -0x8000_0000
  const MaxValue: int := 0x7FFF_FFFF

  type Int32 = x: int | MinValue <= x <= MaxValue

  /** System.Int64, the range a boxed long can hold. */
  type Int64 = x: int | -0x8000_0000_0000_0000 <= x <= 0x7FFF_FFFF_FFFF_FFFF

  predicate InRange(x: int) {
    MinValue <= x <= MaxValue
  }

  /** The value C#'s unchecked arithmetic stores for the mathematical result x. */
  function Wrap(x: int): (r: Int32)
    ensures InRange(x) ==> r == x
    ensures (r - x) % 0x1_0000_0000 == 0
  {
    var m := (x - MinValue) % 0x1_0000_0000;
    m + MinValue
  }

  /** C#'s `a % b`: the remainder of division truncated toward zero, so it
      carries the sign of a (Dafny's own % is Euclidean). */
  function Rem(a: int, b: int): (r: int)
    requires b != 0
    ensures a >= 0 ==> 0 <= r < (if b > 0 then b else -b)
    ensures a < 0 ==> -(if b > 0 then b else -b) < r <= 0
  {
    var n := if b > 0 then b else -b;
    if a >= 0 then a % n else -((-a) % n)
  }

  lemma MulAtLeast(x: int, n: int)
    requires x >= 1 && n > 0
    ensures x * n >= n
  {
    if x > 1 {
      MulAtLeast(x - 1, n);
      assert x * n == (x - 1) * n + n;
    }
  }

  lemma MulMonotone(x: int, y: int, n: int)
    requires 0 <= x <= y && n >= 0
    ensures x * n <= y * n
  {
    assert y * n == x * n + (y - x) * n;
    if y > x && n > 0 { MulAtLeast(y - x, n); }
  }

  /** Euclidean division is unique: p == m * n + k with 0 <= k < n fixes p % n. */
  lemma ModUnique(p: int, m: int, n: int, k: int)
    requires n > 0 && 0 <= k < n && p == m * n + k
    ensures p % n == k
  {
    var d := p / n;
    assert p == d * n + p % n;
    if d > m {
      MulAtLeast(d - m, n);
      assert false;
    } else if d < m {
      MulAtLeast(m - d, n);
      assert false;
    }
  }

  lemma ModAddPeriod(p: int, n: int)
    requires n > 0
    ensures (p + n) % n == p % n
  {
    var m := p / n;
    assert p == m * n + p % n;
    assert p + n == (m + 1) * n + p % n;
    ModUnique(p + n, m + 1, n, p % n);
  }
}

/** The runtime value of a .NET `object` as the core sees it: the variants it
    tests for by exact runtime type, plus null and everything else. */
module Values {
  import opened Wrappers
  import opened Int32

  datatype Value =
    | Str(s: string)                       // System.String
    | Int(i: Int32)                        // boxed System.Int32
    | Long(l: Int64)                       // boxed System.Int64
    | Bool(b: bool)                        // boxed System.Boolean
    | Dict(entries: map<string, Value>)    // IDictionary<string, object>
    | Null                                 // null
    | Other(tag: string)                   // any other object, told apart by tag

  /** A System.Exception as the core reads it: Source, Message, StackTrace and
      the InnerException chain. */
  datatype Exception = Exception(source: string, message: string, stackTrace: string, inner: Option<Exception>)

  /** The static Object.Equals(a, b): true for two nulls, false when exactly
      one is null, otherwise the first object's Equals override, which
      `equals` stands for. */
  function ObjectEquals(a: Value, b: Value, equals: (Value, Value) -> bool): (r: bool)
    ensures a == Null && b == Null ==> r
    ensures (a == Null) != (b == Null) ==> !r
    ensures a != Null && b != Null ==> r == equals(a, b)
  {
    if a == Null || b == Null then a == b else equals(a, b)
  }

  /** Convert.ToString(object): String.Empty for null, the string itself for a
      string, otherwise the object's ToString(), which `toString` stands for. */
  function ConvertToString(v: Value, toString: Value -> string): (r: string)
    ensures v == Null ==> r == ""
    ensures v.Str? ==> r == v.s
  {
    match v
    case Null => ""
    case Str(s) => s
    case _ => toString(v)
  }
}
