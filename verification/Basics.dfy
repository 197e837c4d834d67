/** Small types shared by the models. */
module Basics {

  datatype Option<T> = None | Some(value: T)

  datatype Result<T> = Ok(value: T) | Error

  type Byte = b: nat | b < 256

  function Least(a: nat, b: nat): nat {
    if a < b then a else b
  }

  lemma {:induction false} Regroup<T>(a: seq<T>, b: seq<T>, c: seq<T>)
    ensures (a + b) + c == a + (b + c)
  {
  }
}
