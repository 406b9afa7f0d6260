/**
 The states of the Bech32 checksum (src/bech32.cpp:43-91): six elements of GF(32), the coefficients of a polynomial
 modulo the generator.
 */
module Bech32Field {
  datatype State = State(e5: bv5, e4: bv5, e3: bv5, e2: bv5, e1: bv5, e0: bv5)

  const ZERO := State(0, 0, 0, 0, 0, 0)

  function Add(x: bv5, y: bv5): bv5 { x ^ y }

  /** An element times the coefficients of x^6 modulo the generator. */
  function By29(y: bv5): bv5 {
    (if y & 1 != 0 then 29 else 0) ^ (if y & 2 != 0 then 19 else 0) ^ (if y & 4 != 0 then 15 else 0)
    ^ (if y & 8 != 0 then 30 else 0) ^ (if y & 16 != 0 then 21 else 0)
  }

  function By22(y: bv5): bv5 {
    (if y & 1 != 0 then 22 else 0) ^ (if y & 2 != 0 then 5 else 0) ^ (if y & 4 != 0 then 10 else 0)
    ^ (if y & 8 != 0 then 20 else 0) ^ (if y & 16 != 0 then 1 else 0)
  }

  function By20(y: bv5): bv5 {
    (if y & 1 != 0 then 20 else 0) ^ (if y & 2 != 0 then 1 else 0) ^ (if y & 4 != 0 then 2 else 0)
    ^ (if y & 8 != 0 then 4 else 0) ^ (if y & 16 != 0 then 8 else 0)
  }

  function By21(y: bv5): bv5 {
    (if y & 1 != 0 then 21 else 0) ^ (if y & 2 != 0 then 3 else 0) ^ (if y & 4 != 0 then 6 else 0)
    ^ (if y & 8 != 0 then 12 else 0) ^ (if y & 16 != 0 then 24 else 0)
  }

  function By18(y: bv5): bv5 {
    (if y & 1 != 0 then 18 else 0) ^ (if y & 2 != 0 then 13 else 0) ^ (if y & 4 != 0 then 26 else 0)
    ^ (if y & 8 != 0 then 29 else 0) ^ (if y & 16 != 0 then 19 else 0)
  }

  function Plus(s: State, t: State): State {
    State(Add(s.e5, t.e5), Add(s.e4, t.e4), Add(s.e3, t.e3), Add(s.e2, t.e2), Add(s.e1, t.e1), Add(s.e0, t.e0))
  }

  /** Times x modulo the generator. */
  function TimesX(s: State): State {
    State(Add(s.e4, By29(s.e5)), Add(s.e3, By22(s.e5)), Add(s.e2, By20(s.e5)), Add(s.e1, By21(s.e5)),
          Add(s.e0, By29(s.e5)), By18(s.e5))
  }

  function XPower(d: nat, s: State): State { if d == 0 then s else TimesX(XPower(d - 1, s)) }
}
