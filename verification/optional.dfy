/**
 The two-case optional value of the upload widget. The JavaScript code uses
 `null` (or `undefined`) for "absent" and any other value for "present", and
 consumes it through the curried eliminator `liftOption(opt)(onAbsent)(onPresent)`.
 */
module Optional {

  datatype Option<T> = Absent | Present(value: T)

  /** Eliminates an optional value: the absent branch is a thunk, called only
      when there is no value; the present branch receives the value. */
  function LiftOption<T, R>(opt: Option<T>, onAbsent: () -> R, onPresent: T -> R): (r: R)
    ensures opt.Absent? ==> r == onAbsent()
    ensures opt.Present? ==> r == onPresent(opt.value)
  {
    match opt
    case Absent => onAbsent()
    case Present(v) => onPresent(v)
  }

  /** Eliminating with the two constructors rebuilds the value: the eliminator
      loses nothing and invents nothing. */
  lemma LiftOptionRebuilds<T>(opt: Option<T>)
    ensures LiftOption(opt, () => Absent, (v: T) => Present(v)) == opt
  {
  }

  /** Mapping through the eliminator commutes with applying a function to the
      eliminator's result. */
  lemma LiftOptionNatural<T, R, U>(opt: Option<T>, onAbsent: () -> R, onPresent: T -> R, g: R -> U)
    ensures g(LiftOption(opt, onAbsent, onPresent))
         == LiftOption(opt, () => g(onAbsent()), (v: T) => g(onPresent(v)))
  {
  }
}
