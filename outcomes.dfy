/** Result shapes shared by the matcher's modules. */
module Outcomes {

  /** A value that may be missing; `None` plays JavaScript's `undefined`. */
  datatype Option<+T> = None | Some(value: T)

  /** What a callback-style evaluation delivers to its caller:
      - `Answer(v)`: the callback is called with `v`;
      - `Stuck`: the callback is never called (the evaluation just returns);
      - `Raised`: a TypeError is thrown out of the evaluation. */
  datatype Outcome<+T> = Answer(value: T) | Stuck | Raised

  /** `cb(!result)` wrapped around an inner evaluation: an answer is
      negated, a missing callback or a thrown error passes through. */
  function Negate(o: Outcome<bool>): (r: Outcome<bool>)
    ensures r.Answer? <==> o.Answer?
    ensures r.Answer? ==> r.value != o.value
    ensures !o.Answer? ==> r == o
  {
    match o
    case Answer(b) => Answer(!b)
    case Stuck => Stuck
    case Raised => Raised
  }

  lemma NegateInvolutive(o: Outcome<bool>)
    ensures Negate(Negate(o)) == o
  {
  }
}
