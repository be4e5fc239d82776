/** Helpers of 2048/Utility.h: the shift directions, the min/max/clamp
    templates (instantiated at the engine's integer type) and `swap`. */
module Utility {

  /** The four shift directions, in the order of the enum. */
  datatype Direction = Left | Right | Up | Down

  /** `maxVal`: the larger of two values. */
  function MaxVal(a: int, b: int): (r: int)
    ensures r >= a && r >= b
    ensures r == a || r == b
  {
    if a > b then a else b
  }

  /** `minVal`: the smaller of two values. */
  function MinVal(a: int, b: int): (r: int)
    ensures r <= a && r <= b
    ensures r == a || r == b
  {
    if a < b then a else b
  }

  /** `clamped`: `v` pulled into the interval [lo, hi]. For an empty
      interval (lo > hi) the upper bound wins. */
  function Clamped(v: int, lo: int, hi: int): (r: int)
    ensures lo <= hi ==> lo <= r <= hi
    ensures lo <= hi ==> r == (if v < lo then lo else if v > hi then hi else v)
    ensures lo > hi ==> r == hi
  {
    MinVal(MaxVal(v, lo), hi)
  }

  /** `clamp`: writes `clamped(value, lo, hi)` back through the reference;
      the reference is modelled as an in/out parameter. */
  method Clamp(value: int, lo: int, hi: int) returns (value': int)
    ensures value' == Clamped(value, lo, hi)
    ensures lo <= hi ==> lo <= value' <= hi
  {
    value' := Clamped(value, lo, hi);
  }

  /** `swap`: exchanges the values behind two references, modelled as two
      in/out parameters. */
  method Swap<T>(value1: T, value2: T) returns (value1': T, value2': T)
    ensures value1' == value2 && value2' == value1
  {
    var temp := value1;
    value1' := value2;
    value2' := temp;
  }
}
