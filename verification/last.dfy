/**
 The three-state outcome of the most recent upload: nothing has completed yet,
 the last upload failed with a message, or it succeeded carrying a value. The
 JavaScript code Church-encodes it: each case is a curried function that picks
 one of three continuations `(none)(fail)(some)`.
 */
module Outcome {

  datatype Last<T> = None | Fail(msg: string) | Some(v: T) {

    /** The three-branch eliminator. `onNone` is a plain value, as in the
        source, where the none-case simply returns its first argument. */
    function Match<R>(onNone: R, onFail: string -> R, onSome: T -> R): (r: R)
      ensures None? ==> r == onNone
      ensures Fail? ==> r == onFail(msg)
      ensures Some? ==> r == onSome(v)
    {
      match this
      case None => onNone
      case Fail(m) => onFail(m)
      case Some(x) => onSome(x)
    }
  }

  /** Which of the three branches a value selects, numbered 0, 1, 2. */
  function Branch<T>(l: Last<T>): nat
  {
    l.Match(0, (m: string) => 1, (x: T) => 2)
  }

  /** Exactly one branch is selected, and it is the branch of the value's own
      case: the eliminator is total and never mixes cases. */
  lemma MatchSelectsOwnBranch<T>(l: Last<T>)
    ensures Branch(l) < 3
    ensures Branch(l) == 0 <==> l.None?
    ensures Branch(l) == 1 <==> l.Fail?
    ensures Branch(l) == 2 <==> l.Some?
  {
  }

  /** Eliminating with the three constructors rebuilds the value. */
  lemma MatchRebuilds<T>(l: Last<T>)
    ensures l.Match(None, (m: string) => Fail(m), (x: T) => Some(x)) == l
  {
  }
}
