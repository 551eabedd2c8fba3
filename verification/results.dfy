/** The status codes shared by a single callback and by the engine
    (Pugback.h, the PUG_RESULTS_* constants). */
module Results {

  import opened Optional

  /** One value per PUG_RESULTS_* constant. */
  datatype Status = Success | Failure | Invalid | Disabled | CreatedNew

  /** The integer the C++ code returns for a status. */
  function Code(s: Status): (c: int)
    ensures 1 <= c <= 5
    ensures FromCode(c) == Some(s)
  {
    match s
    case Success => 1
    case Failure => 2
    case Invalid => 3
    case Disabled => 4
    case CreatedNew => 5
  }

  /** The inverse of Code, which no caller in the engine needs: it is kept
      because it shows that the five constants are pairwise distinct and
      that no other integer is a status. */
  function FromCode(c: int): (r: Option<Status>)
    ensures r.Some? <==> 1 <= c <= 5
  {
    if c == 1 then Some(Success)
    else if c == 2 then Some(Failure)
    else if c == 3 then Some(Invalid)
    else if c == 4 then Some(Disabled)
    else if c == 5 then Some(CreatedNew)
    else None
  }

}
