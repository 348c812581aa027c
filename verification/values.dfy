/** Cell values. `Scalar` is a JSON scalar as it appears inside the embedded
    list encodings; `Val` is a cell of a pandas frame (NaN and None are both
    `VNull`, since every check in the pipeline goes through `isnull`). */
module Values {

  datatype Scalar = SNull | SBool(b: bool) | SNum(n: int) | SStr(s: string)

  /** Python truthiness of a scalar: `if name:` skips these. */
  predicate Truthy(x: Scalar) {
    match x
    case SNull => false
    case SBool(b) => b
    case SNum(n) => n != 0
    case SStr(s) => s != ""
  }

  datatype Val = VNull | VBool(b: bool) | VInt(i: int) | VReal(r: real) | VText(s: string)

  /** `pd.to_numeric(v, errors='coerce')`: numbers and booleans are kept,
      text is coerced to NaN. */
  function ToNumeric(v: Val): (r: Val)
    ensures !r.VText?
    ensures v.VText? ==> r == VNull
    ensures !v.VText? ==> r == v
  {
    match v
    case VText(_) => VNull
    case _ => v
  }

  /** The numeric value of a non-null numeric cell (booleans count as 0/1). */
  function AsReal(v: Val): real
    requires v.VBool? || v.VInt? || v.VReal?
  {
    match v
    case VBool(b) => if b then 1.0 else 0.0
    case VInt(i) => i as real
    case VReal(r) => r
  }

  /** `v % 1 == 0` for a non-null numeric cell. */
  predicate Integral(v: Val)
    requires v.VBool? || v.VInt? || v.VReal?
  {
    AsReal(v) == AsReal(v).Floor as real
  }
}
