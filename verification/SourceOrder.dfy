/** The orders of source values, told without the converter's own comparisons. */
module SourceOrder {
  import opened Wrappers
  import opened Wire
  import opened SourceColumns

  /** `totalOrder` of section 5.10 of IEEE 754-2019 on bits: negative before positive, larger magnitudes first among
      the negative ones. `half` is the weight of the sign bit. */
  predicate FloatBefore(a: nat, b: nat, half: nat) {
    if a >= half then b < half || a > b else b < half && a < b
  }

  /** Byte by byte: the first difference decides, and a proper prefix comes first. */
  predicate OctetsBefore(x: seq<byte>, y: seq<byte>) {
    exists k: nat :: k <= |x| && k < |y| && DecidedAt(x, y, k)
  }

  predicate DecidedAt(x: seq<byte>, y: seq<byte>, k: nat)
    requires k <= |x| && k < |y|
  {
    x[..k] == y[..k] && (k == |x| || x[k] < y[k])
  }

  /** The little-endian bytes of a decimal. */
  function DecimalBytes(n: int): seq<byte>
    requires -TWO_127 <= n < TWO_127
  {
    ToLE(if n < 0 then n + TWO_128 else n, 16)
  }

  /** The order clustering promises. Decimals go by their little-endian bytes. */
  predicate ValueBefore(kind: SourceKind, x: SourceValue, y: SourceValue) {
    match (x, y)
    case (Truth(p), Truth(q)) => !p && q
    case (Whole(m), Whole(n)) =>
      if kind == FromDecimal128 then Fits(kind, x) && Fits(kind, y) && OctetsBefore(DecimalBytes(m), DecimalBytes(n))
      else m < n
    case (Float(a), Float(b)) => FloatBefore(a, b, if kind == FromFloat32 then TWO_31 else TWO_63)
    case (Octets(p), Octets(q)) => OctetsBefore(p, q)
    case (Code(p), Code(q)) => p < q
    case _ => false
  }

  /** Nulls come first. */
  predicate CellBefore(kind: SourceKind, x: SourceCell, y: SourceCell) {
    match (x, y)
    case (None, Some(_)) => true
    case (Some(p), Some(q)) => ValueBefore(kind, p, q)
    case _ => false
  }
}
