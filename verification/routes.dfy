/** The route callbacks that turn a store operation's `(error, data)` reply
    into a response: an error goes to the error handler, and so does a reply
    that carries neither an error nor data ("no data"). */
module Routes {
  import opened Wrappers
  import opened UserLog

  /** An error reply is passed on to the error handler; a reply with neither an
      error nor data becomes the "no data" error; only data is sent back. */
  function Respond<T>(reply: Result<Option<T>, Error>): (r: Result<T, Error>)
    ensures r.Success? <==> reply.Success? && reply.value.Some?
    ensures r.Success? ==> r.value == reply.value.value
    ensures reply.Failure? ==> r == Failure(reply.error)
    ensures reply == Success(None) ==> r == Failure(NoData)
  {
    match reply
    case Failure(e) => Failure(e)
    case Success(None) => Failure(NoData)
    case Success(Some(data)) => Success(data)
  }

  /** GET /api/users/:_id/logs: a missing user is always an error response,
      never an empty success. */
  function GetLogs(s: Store, id: Id, from: string, to: string, limit: Option<nat>,
                   parse: string -> Option<int>): (r: Result<LogView, Error>)
    ensures r.Success? <==> id in s
    ensures id !in s ==> r.error == if BothBounds(from, to) || limit.Some? then NullDereference else NoData
    ensures r.Success? ==> r.value.id == id && r.value.count == s[id].count
  {
    Respond(GetAllExercisesByUserId(s, id, from, to, limit, parse))
  }

  /** POST /api/users/:_id/exercises: an empty body date is replaced by
      `today`, the current date already formatted as `toDateString()` would. */
  function PostExercise(s: Store, id: Id, description: string, duration: int, bodyDate: string,
                        today: string, display: string -> string): (r: Step<ExerciseReply>)
    ensures r.reply.Success? <==> id in s
    ensures r.reply.Failure? ==> r.store == s
    ensures r.reply.Success? ==>
              var date := if bodyDate != "" then bodyDate else today;
              && id in r.store
              && r.store[id].log == s[id].log + [Exercise(description, duration, date)]
              && r.reply.value.date == display(date)
  {
    var date := if bodyDate != "" then bodyDate else today;
    CreateExercise(s, id, description, duration, date, display)
  }
}
