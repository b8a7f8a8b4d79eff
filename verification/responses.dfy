/** What createServer writes back: a status code and a body, chosen by the
    route and by whether the route's work succeeded. */
module Responses {
  import opened Wrappers
  import opened Students
  import opened Router

  /** The data a successful route returns. */
  datatype Payload =
    | OneStudent(student: Student)
    | StudentList(students: seq<Student>)
    | PageView(students: seq<Student>, averageAge: real, distribution: map<string, nat>)

  /** How a route's work ended: with data, or with an Error's message; or
      that the route does no work at all (preflight, unrouted requests). */
  datatype Outcome = Done(data: Payload) | Failed(message: string) | NoWork

  /** Exactly the preflight and unrouted requests do no work. */
  predicate Fits(route: Route, outcome: Outcome) {
    outcome.NoWork? <==> route.Preflight? || route.NotFound?
  }

  datatype Body =
    | NoBody
    | PlainText(text: string)
    | HtmlPage(view: Payload)
    | JsonData(data: Payload)                        // {success: true, data}
    | JsonError(error: string)                       // {success: false, error}
    | JsonServerError(error: string, message: string) // {success: false, error, message}

  datatype Response = Response(status: int, body: Body)

  const PageNotFoundText := "Page not found"
  const ServerErrorText := "Internal server error"

  /** The routes whose handler has its own try/catch. */
  predicate CatchesOwnErrors(route: Route) {
    route.GetById? || route.Create? || route.Update? || route.Delete?
  }

  function SuccessStatus(route: Route): int {
    if route.Create? then 201 else 200
  }

  /** The status a route's own catch writes. */
  function CaughtStatus(route: Route): int {
    if route.GetById? || route.Delete? then 404 else 400
  }

  function Respond(route: Route, outcome: Outcome): Response
    requires Fits(route, outcome)
  {
    match route
    case Preflight => Response(200, NoBody)
    case NotFound => Response(404, PlainText(PageNotFoundText))
    case _ =>
      match outcome
      case Done(data) =>
        Response(SuccessStatus(route), if route.Page? then HtmlPage(data) else JsonData(data))
      case Failed(message) =>
        if CatchesOwnErrors(route) then Response(CaughtStatus(route), JsonError(message))
        else Response(500, JsonServerError(ServerErrorText, message))
  }

  function Status(route: Route, outcome: Outcome): int
    requires Fits(route, outcome)
  {
    Respond(route, outcome).status
  }

  /** The status table: get-by-id 200/404, create 201/400, update 200/400,
      delete 200/404; the page, list and grade routes answer 200 or, for an
      uncaught error, 500. Preflight is 200 and an unrouted request 404
      whatever happened. */
  lemma StatusByRoute(route: Route, outcome: Outcome)
    requires Fits(route, outcome)
    ensures route.Preflight? ==> Status(route, outcome) == 200
    ensures route.NotFound? ==> Status(route, outcome) == 404
    ensures route.GetById? ==> Status(route, outcome) == if outcome.Done? then 200 else 404
    ensures route.Create? ==> Status(route, outcome) == if outcome.Done? then 201 else 400
    ensures route.Update? ==> Status(route, outcome) == if outcome.Done? then 200 else 400
    ensures route.Delete? ==> Status(route, outcome) == if outcome.Done? then 200 else 404
    ensures route.Page? || route.ListAll? || route.ByGrade? ==>
      Status(route, outcome) == if outcome.Done? then 200 else 500
  {
  }

  /** The status of a failure depends on the route and never on the error:
      a missing student is 400 on update but 404 on read and delete. */
  lemma StatusIgnoresError(route: Route, m1: string, m2: string)
    requires !route.Preflight? && !route.NotFound?
    ensures Status(route, Failed(m1)) == Status(route, Failed(m2))
    ensures Status(Update(None), Failed(m1)) == 400 && Status(Delete(None), Failed(m1)) == 404
  {
  }

  /** The envelope agrees with the status: a 2xx answer carries data or
      nothing, any other carries an error; a route's own catch reports the
      error's message as is, and the uncaught ones say "Internal server
      error" with the message beside it. */
  lemma EnvelopeMatchesStatus(route: Route, outcome: Outcome)
    requires Fits(route, outcome)
    ensures var r := Respond(route, outcome);
      (200 <= r.status < 300 <==> r.body.NoBody? || r.body.HtmlPage? || r.body.JsonData?)
    ensures !route.Preflight? && !route.NotFound? && outcome.Failed? ==>
      if CatchesOwnErrors(route) then Respond(route, outcome).body == JsonError(outcome.message)
      else Respond(route, outcome) == Response(500, JsonServerError(ServerErrorText, outcome.message))
  {
  }
}
