/**
 * The cross-origin gate: the `origin` callback the server hands to the
 * cors middleware, deciding from the request's Origin header whether a
 * browser may call the API.
 */
module Cors {

  import opened Wrappers

  /** The front-end development servers allowed to call the API. */
  const AllowedOrigins: seq<string> := [
    "http://localhost:5173",
    "http://localhost:5174",
    "http://localhost:5175",
    "http://localhost:5176"
  ]

  const RejectMessage: string :=
    "The CORS policy for this site does not allow access from the specified Origin."

  /** `Array.prototype.indexOf`: the first index holding `x`, or -1. */
  function IndexOf(xs: seq<string>, x: string): (r: int)
    ensures -1 <= r < |xs|
    ensures r == -1 <==> x !in xs
    ensures r >= 0 ==> xs[r] == x && x !in xs[..r]
  {
    if xs == [] then -1
    else if xs[0] == x then 0
    else
      var k := IndexOf(xs[1..], x);
      assert xs[1..][..if k < 0 then 0 else k] == xs[1..if k < 0 then 1 else k + 1];
      if k == -1 then -1 else k + 1
  }

  datatype Decision = Allow | Reject(message: string)

  /** The origin callback. `None` is a request without an Origin header. */
  function CheckOrigin(origin: Option<string>): (d: Decision)
    ensures d.Allow? <==> origin == None || origin == Some("") || origin.value in AllowedOrigins
    ensures d.Reject? ==> d.message == RejectMessage
  {
    if origin.None? || origin.value == "" then Allow
    else if IndexOf(AllowedOrigins, origin.value) == -1 then Reject(RejectMessage)
    else Allow
  }

  /** Only the four listed origins, besides a missing or empty one, get through. */
  lemma OnlyListedOrigins(o: string)
    requires o != ""
    ensures CheckOrigin(Some(o)).Allow? <==>
      o == "http://localhost:5173" || o == "http://localhost:5174" ||
      o == "http://localhost:5175" || o == "http://localhost:5176"
  {
  }
}
