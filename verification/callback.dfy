/** A single registered callback (Pugback.h, class PUG_CallBack). */
module CallBack {

  import opened Results

  /** What invoking the callable does: it returns an integer, or it throws. */
  datatype Outcome = Returns(value: int) | Throws

  /** A callback record. `P` is the opaque payload type; `f` stands for the
      function pointer together with whatever it does when called. */
  datatype Callback<!P> = Callback(
    id: int,
    groupId: int,
    name: string,
    disabled: bool,
    f: P -> Outcome)

  /** The record the engine builds on registration. The identity fields are
      left at the placeholder 0; the C++ constructor never initialises the
      disabled flag, so its value is supplied by the caller. */
  function NewCallback<P>(name: string, f: P -> Outcome, disabled: bool): (cb: Callback<P>)
    ensures cb.id == 0 && cb.groupId == 0
    ensures cb.name == name && cb.f == f
    ensures IsEnabled(cb) <==> !disabled
  {
    Callback(0, 0, name, disabled, f)
  }

  /** A callback is enabled exactly when enabling it would change nothing. */
  predicate IsEnabled<P>(cb: Callback<P>): (r: bool)
    ensures r <==> cb.(disabled := false) == cb
  {
    !cb.disabled
  }

  /** Turns the callback on and changes nothing else. */
  function Enable<P>(cb: Callback<P>): (r: Callback<P>)
    ensures IsEnabled(r)
    ensures r.(disabled := cb.disabled) == cb
  {
    cb.(disabled := false)
  }

  /** Turns the callback off and changes nothing else. */
  function Disable<P>(cb: Callback<P>): (r: Callback<P>)
    ensures !IsEnabled(r)
    ensures r.(disabled := cb.disabled) == cb
  {
    cb.(disabled := true)
  }

  /** Invokes one callback. A disabled callback reports Disabled and its
      callable is not consulted; otherwise a zero return is Success, any
      other return is Failure and a throw is caught and reported as Invalid. */
  function DoCallback<P>(cb: Callback<P>, arg: P): (r: Status)
    ensures r != CreatedNew
    ensures r == Disabled <==> !IsEnabled(cb)
    ensures r == Success <==> IsEnabled(cb) && cb.f(arg) == Returns(0)
    ensures r == Invalid <==> IsEnabled(cb) && cb.f(arg).Throws?
    ensures r == Failure <==> IsEnabled(cb) && cb.f(arg).Returns? && cb.f(arg).value != 0
  {
    if cb.disabled then Disabled
    else
      match cb.f(arg)
      case Returns(v) => if v == 0 then Success else Failure
      case Throws => Invalid
  }

  /** A disabled callback is skipped, and enabling it again restores exactly
      the status it would have had before it was disabled. */
  lemma DisableThenEnable<P>(cb: Callback<P>, arg: P)
    requires IsEnabled(cb)
    ensures DoCallback(Disable(cb), arg) == Disabled
    ensures Enable(Disable(cb)) == cb
    ensures DoCallback(Enable(Disable(cb)), arg) == DoCallback(cb, arg) != Disabled
  {
  }

}
