/** The user log store of the exercise tracker: a collection of user documents,
    each holding a running exercise count and an embedded exercise log. The
    document database is replaced by an immutable map from ids to records. */
module UserLog {
  import opened Wrappers
  import opened Subsequences

  /** The opaque document id (`_id`), as it arrives in a route parameter. */
  type Id = string

  /** One logged activity, embedded in its user's document. */
  datatype Exercise = Exercise(description: string, duration: int, date: string)

  /** A user document: `count` is maintained incrementally beside `log`. */
  datatype User = User(username: string, count: int, log: seq<Exercise>)

  /** The whole collection of user documents, keyed by id. */
  type Store = map<Id, User>

  /** The failures an operation hands to its callback. */
  datatype Error =
    | DuplicateKey      // saving a document whose id is already taken
    | NullDereference   // reading a field of the `null` a lookup returned
    | NoData            // a route received no error and no data

  /** What `createUser` returns and what `getAllUsers` projects each record to. */
  datatype UserRef = UserRef(id: Id, username: string)

  /** The response of `createExercise`. */
  datatype ExerciseReply = ExerciseReply(id: Id, username: string, date: string, duration: int, description: string)

  /** The document `getAllExercisesByUserId` hands back, with its log possibly cut down. */
  datatype LogView = LogView(id: Id, username: string, count: int, log: seq<Exercise>)

  /** A state-changing operation: the store afterwards and the callback's reply. */
  datatype Step<+T> = Step(store: Store, reply: Result<T, Error>)

  /** Every record's counter agrees with the length of its log. */
  ghost predicate WellFormed(s: Store)
  {
    forall id :: id in s ==> s[id].count == |s[id].log|
  }

  /** Records other than `id` are the same in both stores. */
  ghost predicate OthersUnchanged(s: Store, s': Store, id: Id)
  {
    forall k :: k in s && k != id ==> k in s' && s'[k] == s[k]
  }

  // ---------------------------------------------------------------------------
  // createUser

  /** Saves a new user document under the freshly generated id `id`. */
  function CreateUser(s: Store, username: string, id: Id): (r: Step<UserRef>)
    ensures r.reply.Success? <==> id !in s
    ensures r.reply.Failure? ==> r.store == s && r.reply.error == DuplicateKey
    ensures r.reply.Success? ==>
              && r.store.Keys == s.Keys + {id}
              && r.store[id].username == username
              && r.store[id].count == 0
              && r.store[id].log == []
              && r.reply.value.id == id
              && r.reply.value.username == username
              && OthersUnchanged(s, r.store, id)
  {
    if id in s then Step(s, Failure(DuplicateKey))
    else Step(s[id := User(username, 0, [])], Success(UserRef(id, username)))
  }

  // ---------------------------------------------------------------------------
  // getAllUsers

  /** `r` lists every record of `s` exactly once, projected to id and username. */
  ghost predicate IsListing(s: Store, r: seq<UserRef>)
  {
    && |r| == |s|
    && (forall i :: 0 <= i < |r| ==> r[i].id in s && r[i].username == s[r[i].id].username)
    && (forall id :: id in s ==> exists i :: 0 <= i < |r| && r[i].id == id)
    && (forall i, j :: 0 <= i < j < |r| ==> r[i].id != r[j].id)
  }

  /** Projects every record to its id and username, in an order the store chooses. */
  method GetAllUsers(s: Store) returns (r: Result<seq<UserRef>, Error>)
    ensures r.Success?
    ensures IsListing(s, r.value)
  {
    var rest := s.Keys;
    var listed: seq<UserRef> := [];
    while rest != {}
      invariant rest <= s.Keys
      invariant |listed| + |rest| == |s|
      invariant forall i :: 0 <= i < |listed| ==>
                  listed[i].id in s && listed[i].id !in rest && listed[i].username == s[listed[i].id].username
      invariant forall id :: id in s && id !in rest ==> exists i :: 0 <= i < |listed| && listed[i].id == id
      invariant forall i, j :: 0 <= i < j < |listed| ==> listed[i].id != listed[j].id
      decreases rest
    {
      var id :| id in rest;
      var before := listed;
      listed := listed + [UserRef(id, s[id].username)];
      rest := rest - {id};
      forall k | k in s && k !in rest
        ensures exists i :: 0 <= i < |listed| && listed[i].id == k
      {
        if k == id {
          assert listed[|before|].id == k;
        } else {
          var i :| 0 <= i < |before| && before[i].id == k;
          assert listed[i].id == k;
        }
      }
    }
    r := Success(listed);
  }

  // ---------------------------------------------------------------------------
  // createExercise

  /** The atomic `$push` of `e` onto the log and `$inc` of the count of document
      `id`; yields the updated document, or `None` when no document matches. */
  function FindOneAndUpdate(s: Store, id: Id, e: Exercise): (r: (Store, Option<User>))
    ensures r.1.None? <==> id !in s
    ensures r.1.None? ==> r.0 == s
    ensures r.1.Some? ==>
              && r.0.Keys == s.Keys
              && r.0[id] == r.1.value
              && r.1.value.username == s[id].username
              && r.1.value.count == s[id].count + 1
              && r.1.value.log == s[id].log + [e]
              && OthersUnchanged(s, r.0, id)
  {
    if id !in s then (s, None)
    else
      var u := s[id];
      var u' := u.(count := u.count + 1, log := u.log + [e]);
      (s[id := u'], Some(u'))
  }

  /** Appends an exercise to user `id`'s log; `display` stands for the date
      reformatting `new Date(date).toDateString()`. */
  function CreateExercise(s: Store, id: Id, description: string, duration: int, date: string,
                          display: string -> string): (r: Step<ExerciseReply>)
    ensures r.reply.Success? <==> id in s
    ensures r.reply.Failure? ==> r.store == s && r.reply.error == NullDereference
    ensures r.reply.Success? ==>
              && r.store.Keys == s.Keys
              && r.store[id].username == s[id].username
              && r.store[id].count == s[id].count + 1
              && r.store[id].log == s[id].log + [Exercise(description, duration, date)]
              && OthersUnchanged(s, r.store, id)
              && r.reply.value == ExerciseReply(id, s[id].username, display(date), duration, description)
  {
    var (s', data) := FindOneAndUpdate(s, id, Exercise(description, duration, date));
    match data
    case None => Step(s', Failure(NullDereference))
    case Some(u) => Step(s', Success(ExerciseReply(id, u.username, display(date), duration, description)))
  }

  // ---------------------------------------------------------------------------
  // getAllExercisesByUserId

  /** The entry date lies between both bounds inclusive; as with JavaScript's
      `NaN`, a `None` on either side of a comparison makes it false. */
  predicate InRange(d: Option<int>, lo: Option<int>, hi: Option<int>)
  {
    d.Some? && lo.Some? && hi.Some? && lo.value <= d.value <= hi.value
  }

  /** A date filter applies only when both bounds are non-empty strings. */
  predicate BothBounds(from: string, to: string)
  {
    from != "" && to != ""
  }

  /** The entries of `log` whose parsed date lies within `[lo, hi]`, in log order. */
  function FilterByDate(log: seq<Exercise>, lo: Option<int>, hi: Option<int>,
                        parse: string -> Option<int>): (r: seq<Exercise>)
    ensures IsSubsequence(r, log)
    ensures forall i :: 0 <= i < |r| ==> InRange(parse(r[i].date), lo, hi)
    ensures forall e :: multiset(r)[e] == if InRange(parse(e.date), lo, hi) then multiset(log)[e] else 0
    decreases |log|
  {
    if log == [] then []
    else
      var rest := FilterByDate(log[1..], lo, hi, parse);
      assert log == [log[0]] + log[1..];
      if InRange(parse(log[0].date), lo, hi) then
        assert ([log[0]] + rest)[1..] == rest;
        [log[0]] + rest
      else
        rest
  }

  /** The first `limit` entries of the log, or all of them if there are fewer. */
  function Limit(log: seq<Exercise>, limit: nat): (r: seq<Exercise>)
    ensures |r| == if limit < |log| then limit else |log|
    ensures forall i :: 0 <= i < |r| ==> r[i] == log[i]
  {
    if limit < |log| then log[..limit] else log
  }

  /** Fetches user `id` and narrows a copy of its log: by date only when both
      `from` and `to` are non-empty, then to a prefix when a limit is given.
      The reply is the callback's `(error, data)` pair, `data` possibly `null`. */
  function GetAllExercisesByUserId(s: Store, id: Id, from: string, to: string, limit: Option<nat>,
                                   parse: string -> Option<int>): (r: Result<Option<LogView>, Error>)
    ensures r.Failure? <==> id !in s && (BothBounds(from, to) || limit.Some?)
    ensures r.Failure? ==> r.error == NullDereference
    ensures r.Success? ==> (r.value.Some? <==> id in s)
    ensures r.Success? && r.value.Some? ==>
              var v := r.value.value;
              && v.id == id
              && v.username == s[id].username
              && v.count == s[id].count
              && IsSubsequence(v.log, s[id].log)
              && (BothBounds(from, to) ==>
                    forall i :: 0 <= i < |v.log| ==> InRange(parse(v.log[i].date), parse(from), parse(to)))
              && (BothBounds(from, to) && limit.None? ==>
                    forall e :: multiset(v.log)[e] ==
                      if InRange(parse(e.date), parse(from), parse(to)) then multiset(s[id].log)[e] else 0)
              && (!BothBounds(from, to) && limit.None? ==> v.log == s[id].log)
              && (limit.Some? ==> |v.log| <= limit.value)
  {
    if id !in s then
      if BothBounds(from, to) || limit.Some? then Failure(NullDereference) else Success(None)
    else
      var u := s[id];
      var dated := if BothBounds(from, to) then FilterByDate(u.log, parse(from), parse(to), parse) else u.log;
      var limited := if limit.Some? then Limit(dated, limit.value) else dated;
      assert IsSubsequence(limited, u.log) by {
        if !BothBounds(from, to) {
          SubsequenceReflexive(u.log);
        }
        if limit.Some? && limit.value < |dated| {
          PrefixIsSubsequence(dated, limit.value);
          SubsequenceTransitive(limited, dated, u.log);
        }
      }
      Success(Some(LogView(id, u.username, u.count, limited)))
  }
}
