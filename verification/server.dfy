/** The request handler of createServer, run against the students store. */
module Server {
  import opened Wrappers
  import opened Email
  import opened Students
  import opened Router
  import opened Responses

  /** A request body after `JSON.parse`: its four fields, each absent
      (undefined or null) or present; or the message of the error that
      parsing or destructuring threw. An empty body parses to `{}`. */
  datatype RequestBody =
    | Unparsable(message: string)
    | Fields(name: Option<string>, age: Option<int>, grade: Option<string>, email: Option<string>)

  datatype Request = Request(verb: string, path: string, body: RequestBody)

  const RequiredMessage := "All fields are required"

  /** JavaScript truthiness of a string and of a number. */
  predicate TruthyText(v: Option<string>) { v.Some? && v.value != "" }
  predicate TruthyNumber(v: Option<int>) { v.Some? && v.value != 0 }

  /** The error create and update raise before calling the store, if any. */
  function BodyError(b: RequestBody): Option<string> {
    match b
    case Unparsable(message) => Some(message)
    case Fields(name, age, grade, email) =>
      if TruthyText(name) && TruthyNumber(age) && TruthyText(grade) && TruthyText(email) then None
      else Some(RequiredMessage)
  }

  /** A body passes the required-field check exactly when all four fields
      are present, the three texts non-empty and the age not 0. */
  lemma BodyErrorSpec(b: RequestBody)
    ensures BodyError(b).None? <==>
      b.Fields? && b.name.Some? && b.name.value != "" && b.age.Some? && b.age.value != 0 &&
      b.grade.Some? && b.grade.value != "" && b.email.Some? && b.email.value != ""
    ensures b.Fields? && BodyError(b).Some? ==> BodyError(b) == Some(RequiredMessage)
  {
  }

  predicate Unchanged(rows: map<int, Student>, nextId: int, store: StudentStore)
    reads store
  {
    store.rows == rows && store.nextId == nextId
  }

  /** The request handler: dispatch, run the route's work against the
      store, and answer with the route's status and envelope. */
  method HandleRequest(store: StudentStore, req: Request) returns (route: Route, outcome: Outcome, resp: Response)
    requires store.Valid()
    modifies store`rows, store`nextId
    ensures store.Valid()
    ensures route == Dispatch(req.verb, req.path)
    ensures Fits(route, outcome) && resp == Respond(route, outcome)
    // only a create, update or delete that succeeds changes the table
    ensures !(route.Create? || route.Update? || route.Delete?) || !outcome.Done? ==>
      Unchanged(old(store.rows), old(store.nextId), store)
    // the store's failure fails every route that reaches the store; it is
    // an uncaught error on the page, list and grade routes
    ensures store.fault.Some? && (route.Page? || route.ListAll? || route.ByGrade? || route.GetById? || route.Delete?) ==>
      outcome == Failed(store.fault.value)
    ensures store.fault.Some? && (route.Page? || route.ListAll? || route.ByGrade?) ==>
      resp == Response(500, JsonServerError(ServerErrorText, store.fault.value))
    ensures store.fault.None? && route.ListAll? ==>
      outcome == Done(StudentList(AllStudents(store.rows, store.nextId)))
    ensures store.fault.None? && route.ByGrade? ==>
      outcome == Done(StudentList(WithGrade(AllStudents(store.rows, store.nextId), route.grade)))
    ensures store.fault.None? && route.Page? ==>
      && outcome.Done? && outcome.data.PageView?
      && outcome.data.students == AllStudents(store.rows, store.nextId)
      && outcome.data.averageAge == AverageAge(outcome.data.students)
      && outcome.data.distribution.Keys == GradesPresent(outcome.data.students) - {ProtoKey}
      && forall g :: g in outcome.data.distribution ==>
           outcome.data.distribution[g] == Tally(outcome.data.students, g)
    // a NaN id reaches the store, which rejects it
    ensures store.fault.None? && (route.GetById? || route.Delete?) && route.id.None? ==>
      outcome == Failed(NanIdMessage)
    ensures store.fault.None? && route.GetById? && route.id.Some? ==>
      outcome == if route.id.value in store.rows then Done(OneStudent(store.rows[route.id.value]))
                 else Failed(NotFoundMessage)
    // create and update check the body before anything else
    ensures (route.Create? || route.Update?) && BodyError(req.body).Some? ==>
      outcome == Failed(BodyError(req.body).value)
    ensures route.Create? && BodyError(req.body).None? ==>
      var b := req.body;
      && (!IsValidEmail(b.email.value) ==> outcome == Failed(InvalidEmailMessage))
      && (IsValidEmail(b.email.value) && store.fault.Some? ==> outcome == Failed(store.fault.value))
      && (IsValidEmail(b.email.value) && store.fault.None? ==>
            outcome == Done(OneStudent(Student(old(store.nextId), b.name.value, b.age.value, b.grade.value, b.email.value)))
            && store.rows == old(store.rows)[old(store.nextId) := outcome.data.student]
            && store.nextId == old(store.nextId) + 1)
    ensures route.Update? && BodyError(req.body).None? ==>
      var b := req.body;
      && (!IsValidEmail(b.email.value) ==> outcome == Failed(InvalidEmailMessage))
      && (IsValidEmail(b.email.value) && store.fault.Some? ==> outcome == Failed(store.fault.value))
      && (IsValidEmail(b.email.value) && store.fault.None? && route.id.None? ==> outcome == Failed(NanIdMessage))
      && (IsValidEmail(b.email.value) && store.fault.None? && route.id.Some? ==>
            if route.id.value in old(store.rows) then
              outcome == Done(OneStudent(Student(route.id.value, b.name.value, b.age.value, b.grade.value, b.email.value)))
              && store.rows == old(store.rows)[route.id.value := outcome.data.student]
              && store.nextId == old(store.nextId)
            else outcome == Failed(NotFoundMessage))
    ensures route.Delete? && store.fault.None? && route.id.Some? ==>
      if route.id.value in old(store.rows) then
        outcome == Done(OneStudent(old(store.rows)[route.id.value]))
        && store.rows == old(store.rows) - {route.id.value}
        && store.nextId == old(store.nextId)
      else outcome == Failed(NotFoundMessage)
  {
    route := Dispatch(req.verb, req.path);
    match route {
    case Preflight =>
      outcome := NoWork;
    case NotFound =>
      outcome := NoWork;
    case Page =>
      var students := store.GetAllStudents();
      match students {
        case Failure(e) => outcome := Failed(e);
        case Success(all) =>
          var average := store.GetAverageAge();
          match average {
            case Failure(e) => outcome := Failed(e);
            case Success(mean) =>
              var distribution := store.GetGradeDistribution();
              match distribution {
                case Success(d) => outcome := Done(PageView(all, mean, d));
                case Failure(e) => outcome := Failed(e);
              }
          }
      }
    case ListAll =>
      var students := store.GetAllStudents();
      outcome := if students.Success? then Done(StudentList(students.value)) else Failed(students.error);
    case GetById(id) =>
      var student := store.GetStudentById(id);
      outcome := if student.Success? then Done(OneStudent(student.value)) else Failed(student.error);
    case ByGrade(grade) =>
      var students := store.GetStudentsByGrade(grade);
      outcome := if students.Success? then Done(StudentList(students.value)) else Failed(students.error);
    case Create =>
      var b := req.body;
      if BodyError(b).Some? {
        outcome := Failed(BodyError(b).value);
      } else {
        var student := store.AddStudent(b.name.value, b.age.value, b.grade.value, b.email.value);
        outcome := if student.Success? then Done(OneStudent(student.value)) else Failed(student.error);
      }
    case Update(id) =>
      var b := req.body;
      if BodyError(b).Some? {
        outcome := Failed(BodyError(b).value);
      } else {
        var student := store.UpdateStudent(id, b.name.value, b.age.value, b.grade.value, b.email.value);
        outcome := if student.Success? then Done(OneStudent(student.value)) else Failed(student.error);
      }
    case Delete(id) =>
      var student := store.DeleteStudent(id);
      outcome := if student.Success? then Done(OneStudent(student.value)) else Failed(student.error);
    }
    resp := Respond(route, outcome);
  }
}
