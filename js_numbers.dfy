/** Integer views of the JavaScript number operations that the modelled code relies on.
    JavaScript numbers are doubles; the model keeps only the integer values (and NaN)
    those operations see, and writes out the truncation and 32-bit wrapping explicitly. */
module JsNumbers {

  /** A JavaScript number as far as the modelled code needs it: an integer, or NaN
      (what `charCodeAt` yields past the end of a string). */
  datatype Number = Int(value: int) | NaN

  const TWO_32: int := 0x1_0000_0000
  const TWO_31: int := 0x8000_0000
  const TWO_16: int := 0x1_0000
  const TWO_15: int := 0x8000

  /** JavaScript's `%`: the division truncates toward zero, so the remainder is
      sign(a) * (|a| mod b) (Dafny's `%` is Euclidean and never negative). */
  function Rem(a: int, b: int): (r: int)
    requires b > 0
    ensures -b < r < b
    ensures a >= 0 ==> r == a % b
    ensures a < 0 ==> -r == (-a) % b
  {
    if a >= 0 then a % b else -((-a) % b)
  }

  /** `Math.floor(a / b)` for a positive divisor. */
  function FloorDiv(a: int, b: int): (r: int)
    requires b > 0
    ensures r * b <= a < r * b + b
    ensures a >= 0 ==> r >= 0
  {
    a / b
  }

  /** `Math.ceil(a / b)` for a positive divisor. */
  function CeilDiv(a: int, b: int): (r: int)
    requires b > 0
    ensures r * b - b < a <= r * b
  {
    -((-a) / b)
  }

  /** ECMAScript ToInt32 on an integer: the value modulo 2^32, read as a signed 32-bit word. */
  function ToInt32(x: int): (r: int)
    ensures -TWO_31 <= r < TWO_31
    ensures (x - r) % TWO_32 == 0
    ensures -TWO_31 <= x < TWO_31 ==> r == x
  {
    var u := x % TWO_32;
    if u >= TWO_31 then u - TWO_32 else u
  }

  /** ECMAScript ToInt16 (used by `DataView.setInt16`). */
  function ToInt16(x: int): (r: int)
    ensures -TWO_15 <= r < TWO_15
    ensures (x - r) % TWO_16 == 0
    ensures -TWO_15 <= x < TWO_15 ==> r == x
  {
    var u := x % TWO_16;
    if u >= TWO_15 then u - TWO_16 else u
  }

  /** ToInt32 of a number: NaN becomes 0, as the bitwise operators do. */
  function NumberToInt32(n: Number): (r: int)
    ensures -TWO_31 <= r < TWO_31
    ensures n.NaN? ==> r == 0
  {
    match n
    case Int(v) => ToInt32(v)
    case NaN => 0
  }

  /** `x >> 15` on a signed 32-bit value: an arithmetic shift, that is, floor division,
      which keeps the sign. */
  function ShiftRight15(x: int): (r: int)
    requires -TWO_31 <= x < TWO_31
    ensures -TWO_16 <= r < TWO_16
    ensures (r < 0) == (x < 0)
  {
    x / TWO_15
  }

  /** `a ^ b` on two signed 32-bit values, giving a signed 32-bit value, negative exactly
      when one operand is negative and the other is not (the sign bit is xored too). */
  function Xor32(a: int, b: int): (r: int)
    requires -TWO_31 <= a < TWO_31 && -TWO_31 <= b < TWO_31
    ensures -TWO_31 <= r < TWO_31
    ensures (r >= 0) == ((a < 0) == (b < 0))
  {
    var ua := (a % TWO_32) as bv32;
    var ub := (b % TWO_32) as bv32;
    WordSign(a);
    WordSign(b);
    XorSignBit(ua, ub);
    var w := ua ^ ub;
    WordValue(w);
    ToInt32(w as int)
  }

  /** A signed 32-bit value is negative exactly when the top bit of its word is set. */
  lemma WordSign(a: int)
    requires -TWO_31 <= a < TWO_31
    ensures ((a % TWO_32) as bv32 < 0x8000_0000) == (a >= 0)
  {
    var u := a % TWO_32;
    if a >= 0 {
      assert u == a;
    } else {
      assert u == a + TWO_32;
    }
    WordBounds(u as bv32);
  }

  /** A word read as a signed 32-bit value is negative exactly when its top bit is set. */
  lemma WordValue(w: bv32)
    ensures 0 <= w as int < TWO_32
    ensures (ToInt32(w as int) >= 0) == (w < 0x8000_0000)
  {
    WordBounds(w);
    var x := w as int;
    assert x % TWO_32 == x;
  }

  /** The integer value of a word, and where its top bit puts it. */
  lemma WordBounds(w: bv32)
    ensures 0 <= w as int < 0x1_0000_0000
    ensures (w as int < 0x8000_0000) == (w < 0x8000_0000)
  {
  }

  /** The top bit of `ua ^ ub` is set exactly when it is set in one operand only. */
  lemma XorSignBit(ua: bv32, ub: bv32)
    ensures (ua ^ ub < 0x8000_0000) == ((ua < 0x8000_0000) == (ub < 0x8000_0000))
  {
  }
}

/** Optional values, for the source's `null`/`undefined` results and thrown errors. */
module Wrappers {
  datatype Option<+T> = None | Some(value: T)
}
