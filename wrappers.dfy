/** Small value types shared by the trackers and the linked lists. */
module Wrappers {

  /** Python's `None` next to a present value. */
  datatype Option<+T> = None | Some(value: T)

  /** The outcome of an operation that the source lets raise. */
  datatype Result<+T> = Ok(value: T) | Err(message: string)

  /** A timestamp, or the `float("-inf")` that the sentinel node and a
      never-ticked windowed tracker carry. */
  datatype Time = MinusInfinity | At(t: int)
  {
    /** `self - d` for a finite `d`; minus infinity stays minus infinity. */
    function Minus(d: int): (r: Time)
      ensures r.At? <==> At?
      ensures At? ==> r.t + d == t
    {
      match this
      case MinusInfinity => MinusInfinity
      case At(x) => At(x - d)
    }

    /** Python's `max(a, b)` on two timestamps. */
    function Max(other: Time): (r: Time)
      ensures r == this || r == other
      ensures At? || other.At? ==> r.At?
      ensures At? ==> r.t >= t
      ensures other.At? ==> r.t >= other.t
    {
      match (this, other)
      case (MinusInfinity, _) => other
      case (_, MinusInfinity) => this
      case (At(a), At(b)) => if a >= b then this else other
    }
  }

  /** A real number or one of the two float infinities that `min` and `max`
      return for an empty window. */
  datatype Extended = NegInf | Finite(x: real) | PosInf
  {
    /** Python's `max(self, other)`. */
    function Max(other: Extended): (r: Extended)
      ensures r == this || r == other
      ensures Below(r) && other.Below(r)
    {
      match (this, other)
      case (NegInf, _) => other
      case (_, NegInf) => this
      case (PosInf, _) => this
      case (_, PosInf) => other
      case (Finite(a), Finite(b)) => if a >= b then this else other
    }

    /** Python's `min(self, other)`. */
    function Min(other: Extended): (r: Extended)
      ensures r == this || r == other
      ensures r.Below(this) && r.Below(other)
    {
      match (this, other)
      case (PosInf, _) => other
      case (_, PosInf) => this
      case (NegInf, _) => this
      case (_, NegInf) => other
      case (Finite(a), Finite(b)) => if a <= b then this else other
    }

    /** `self <= other` in the extended order. */
    predicate Below(other: Extended) {
      match (this, other)
      case (NegInf, _) => true
      case (_, PosInf) => true
      case (Finite(a), Finite(b)) => a <= b
      case _ => false
    }
  }
}
