/** Small things that several modules use. */
module Options {
  datatype Option<T> = None | Some(value: T)
}

module Bytes {
  type byte = i: int | 0 <= i < 256
}

module Reals {
  function Max(a: real, b: real): real { if a < b then b else a }

  function Min(a: real, b: real): real { if b < a then b else a }

  function Squared(a: real): real { a * a }

  lemma Cancel(a: real, b: real, h: real)
    requires h != 0.0 && a * h == b * h
    ensures a == b
  {
    assert (a - b) * h == 0.0;
  }
}
