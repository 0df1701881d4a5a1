/** Optional values and results, for a lookup that may find nothing and a call that may fail. */
module Wrappers {
  newtype byte = x: int | 0 <= x < 256

  type Bytes = seq<byte>

  datatype Option<+T> = None | Some(value: T) {
    function GetOr(default: T): T {
      if Some? then value else default
    }
  }

  datatype Result<+T, +E> = Ok(value: T) | Err(error: E)

  function Max(a: int, b: int): int {
    if a < b then b else a
  }

  function Min(a: int, b: int): int {
    if a < b then a else b
  }

  /** Go's integer division truncates toward zero. */
  function TruncDiv(a: int, b: int): int
    requires b > 0
  {
    if a >= 0 then a / b else -((-a) / b)
  }

  /** A nonempty set has an element a loop can take next. */
  lemma Inhabited(s: set<int>)
    requires s != {}
    ensures exists i :: i in s
  {
    assert (forall i :: i !in s) ==> s == {};
  }

  lemma EmptyIff(s: set<int>)
    ensures s == {} <==> forall i :: i !in s
  {
    assert (forall i :: i !in s) ==> s == {};
  }
}
