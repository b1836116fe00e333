/** Shared value types: bytes, optional values, the error-message results
    every operation of the service returns, and JavaScript numbers. */
module Base {

  newtype byte = x: int | 0 <= x < 256

  datatype Option<+T> = None | Some(value: T) {
    function GetOr(default: T): T {
      match this
      case Some(v) => v
      case None => default
    }
  }

  /** Every failure of the service is an exception carrying a message string. */
  datatype Result<+T> = Ok(value: T) | Err(msg: string)

  /** A failure reported by the relational store: a SQLSTATE code and its message. */
  datatype StoreError = StoreError(code: string, message: string)

  /** A JavaScript number, as far as the service inspects it. */
  datatype JsNumber = NaN | Infinite(negative: bool) | Finite(value: real) {
    /** `Number.isFinite(n) && n > 0` */
    predicate IsPositiveFinite() {
      Finite? && value > 0.0
    }
    /** The integer key a parameterised query compares an integer column with. */
    function AsRowId(): (r: Option<int>)
      ensures r.Some? ==> Finite? && value == r.value as real
    {
      if Finite? && value == value.Floor as real then Some(value.Floor) else None
    }
  }

  function FromInt(i: int): (n: JsNumber)
    ensures n.AsRowId() == Some(i)
  {
    Finite(i as real)
  }

  /** Concatenation regroups freely; stated once so that proofs with many
      sequences in scope need not search for it. */
  lemma ConcatAssociative<T>(a: seq<T>, b: seq<T>, c: seq<T>)
    ensures (a + b) + c == a + (b + c)
  {
  }

  lemma SuffixTail<T>(s: seq<T>, k: nat)
    requires k < |s|
    ensures s[k..][1..] == s[k + 1..]
  {
  }
}
