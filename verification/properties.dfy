/** Properties that relate several store operations to each other. */
module Properties {
  import opened Wrappers
  import opened Subsequences
  import opened UserLog
  import opened Routes

  // ---------------------------------------------------------------------------
  // The counter invariant

  lemma CreateUserKeepsCountInvariant(s: Store, username: string, id: Id)
    requires WellFormed(s)
    ensures WellFormed(CreateUser(s, username, id).store)
  {
  }

  lemma CreateExerciseKeepsCountInvariant(s: Store, id: Id, description: string, duration: int,
                                          date: string, display: string -> string)
    requires WellFormed(s)
    ensures WellFormed(CreateExercise(s, id, description, duration, date, display).store)
  {
  }

  /** The store after logging the entries `es` against user `id`, one
      `createExercise` call per entry, in order. */
  ghost function LogAll(s: Store, id: Id, es: seq<Exercise>, display: string -> string): Store
    requires id in s
    decreases |es|
  {
    if es == [] then s
    else
      var s' := CreateExercise(s, id, es[0].description, es[0].duration, es[0].date, display).store;
      LogAll(s', id, es[1..], display)
  }

  /** A run of successful `createExercise` calls appends exactly those entries,
      raises the count by their number, and touches no other record. */
  lemma {:induction false} LogAllAppends(s: Store, id: Id, es: seq<Exercise>, display: string -> string)
    requires id in s
    ensures LogAll(s, id, es, display).Keys == s.Keys
    ensures LogAll(s, id, es, display)[id].username == s[id].username
    ensures LogAll(s, id, es, display)[id].log == s[id].log + es
    ensures LogAll(s, id, es, display)[id].count == s[id].count + |es|
    ensures OthersUnchanged(s, LogAll(s, id, es, display), id)
    decreases |es|
  {
    if es != [] {
      var s' := CreateExercise(s, id, es[0].description, es[0].duration, es[0].date, display).store;
      LogAllAppends(s', id, es[1..], display);
      assert s[id].log + es == s[id].log + [es[0]] + es[1..];
    }
  }

  /** A freshly created user that has logged `es` has count and log length `|es|`. */
  lemma CountAfterExercises(s: Store, username: string, id: Id, es: seq<Exercise>, display: string -> string)
    requires id !in s
    ensures id in CreateUser(s, username, id).store
    ensures var s' := LogAll(CreateUser(s, username, id).store, id, es, display);
            id in s' && s'[id].count == |es| && s'[id].log == es
  {
    LogAllAppends(CreateUser(s, username, id).store, id, es, display);
  }

  // ---------------------------------------------------------------------------
  // Listing

  /** After `createUser`, a listing of the store shows the new user exactly once. */
  lemma ListedExactlyOnce(s: Store, username: string, id: Id, listing: seq<UserRef>)
    requires CreateUser(s, username, id).reply.Success?
    requires IsListing(CreateUser(s, username, id).store, listing)
    ensures exists i :: 0 <= i < |listing| && listing[i] == UserRef(id, username)
    ensures forall i, j :: 0 <= i < |listing| && 0 <= j < |listing| && listing[i].id == id && listing[j].id == id ==> i == j
  {
    var s' := CreateUser(s, username, id).store;
    var i :| 0 <= i < |listing| && listing[i].id == id;
    assert listing[i] == UserRef(id, username);
  }

  // ---------------------------------------------------------------------------
  // Log queries

  /** Date filtering distributes over concatenation of logs. */
  lemma {:induction false} FilterByDateAppend(a: seq<Exercise>, b: seq<Exercise>, lo: Option<int>, hi: Option<int>,
                                              parse: string -> Option<int>)
    ensures FilterByDate(a + b, lo, hi, parse) == FilterByDate(a, lo, hi, parse) + FilterByDate(b, lo, hi, parse)
    decreases |a|
  {
    if a != [] {
      var ab := a + b;
      assert ab != [] && ab[0] == a[0];
      assert ab[1..] == a[1..] + b;
      FilterByDateAppend(a[1..], b, lo, hi, parse);
      var tail := FilterByDate(a[1..], lo, hi, parse) + FilterByDate(b, lo, hi, parse);
      assert FilterByDate(ab[1..], lo, hi, parse) == tail;
      if InRange(parse(a[0].date), lo, hi) {
        assert FilterByDate(ab, lo, hi, parse) == [a[0]] + tail;
        assert FilterByDate(a, lo, hi, parse) == [a[0]] + FilterByDate(a[1..], lo, hi, parse);
      } else {
        assert FilterByDate(ab, lo, hi, parse) == tail;
        assert FilterByDate(a, lo, hi, parse) == FilterByDate(a[1..], lo, hi, parse);
      }
    } else {
      assert a + b == b;
    }
  }

  /** After logging an exercise, a date-filtered query shows the old result
      plus the new entry exactly when its date is in range. */
  lemma QueryAfterExercise(s: Store, id: Id, description: string, duration: int, date: string,
                           display: string -> string, from: string, to: string, parse: string -> Option<int>)
    requires id in s
    requires BothBounds(from, to)
    ensures var s' := CreateExercise(s, id, description, duration, date, display).store;
            var before := GetAllExercisesByUserId(s, id, from, to, None, parse);
            var after := GetAllExercisesByUserId(s', id, from, to, None, parse);
            && before.Success? && before.value.Some? && after.Success? && after.value.Some?
            && after.value.value.count == before.value.value.count + 1
            && after.value.value.log ==
                 before.value.value.log +
                 (if InRange(parse(date), parse(from), parse(to)) then [Exercise(description, duration, date)] else [])
  {
    var e := Exercise(description, duration, date);
    FilterByDateAppend(s[id].log, [e], parse(from), parse(to), parse);
  }

  /** A bound given without its partner has no effect at all on the query. */
  lemma LoneBoundIgnored(s: Store, id: Id, from: string, to: string, limit: Option<nat>, parse: string -> Option<int>)
    requires !BothBounds(from, to)
    ensures GetAllExercisesByUserId(s, id, from, to, limit, parse) == GetAllExercisesByUserId(s, id, "", "", limit, parse)
  {
  }

  /** With a limit, the query returns the first `min(limit, n)` entries of what
      the same query without a limit returns, and the same count. */
  lemma LimitTakesPrefix(s: Store, id: Id, from: string, to: string, n: nat, parse: string -> Option<int>)
    requires id in s
    ensures var full := GetAllExercisesByUserId(s, id, from, to, None, parse);
            var cut := GetAllExercisesByUserId(s, id, from, to, Some(n), parse);
            && full.Success? && full.value.Some? && cut.Success? && cut.value.Some?
            && cut.value.value.count == full.value.value.count
            && |cut.value.value.log| == (if n < |full.value.value.log| then n else |full.value.value.log|)
            && cut.value.value.log == full.value.value.log[..|cut.value.value.log|]
  {
  }

  /** For a well-formed record the reported count is the stored total, so it
      exceeds the returned log length whenever entries were filtered out. */
  lemma CountIsStoredTotal(s: Store, id: Id, from: string, to: string, limit: Option<nat>, parse: string -> Option<int>)
    requires WellFormed(s) && id in s
    ensures var r := GetAllExercisesByUserId(s, id, from, to, limit, parse);
            r.Success? && r.value.Some? && r.value.value.count == |s[id].log| >= |r.value.value.log|
  {
    var r := GetAllExercisesByUserId(s, id, from, to, limit, parse);
    SubsequenceNoLonger(r.value.value.log, s[id].log);
  }

  // ---------------------------------------------------------------------------
  // Unknown ids

  /** Neither the exercise route nor the log route turns an unknown id into a
      success, and the exercise route leaves the store as it was. */
  lemma UnknownIdFails(s: Store, id: Id, description: string, duration: int, bodyDate: string, today: string,
                       display: string -> string, from: string, to: string, limit: Option<nat>,
                       parse: string -> Option<int>)
    requires id !in s
    ensures PostExercise(s, id, description, duration, bodyDate, today, display) == Step(s, Failure(NullDereference))
    ensures GetLogs(s, id, from, to, limit, parse).Failure?
  {
  }

  // ---------------------------------------------------------------------------
  // A worked scenario

  /** alice logs a run and a swim; the log query with limit 1 shows only the
      run while still reporting both in its count. */
  lemma AliceScenario(parse: string -> Option<int>, display: string -> string)
    ensures var s1 := CreateUser(map[], "alice", "abc123");
            var s2 := PostExercise(s1.store, "abc123", "run", 30, "2023-01-15", "Mon Jan 16 2023", display);
            var s3 := PostExercise(s2.store, "abc123", "swim", 20, "", "Mon Jan 16 2023", display);
            var all := GetLogs(s3.store, "abc123", "", "", None, parse);
            var one := GetLogs(s3.store, "abc123", "", "", Some(1), parse);
            && s1.reply == Success(UserRef("abc123", "alice"))
            && s2.reply.Success? && s2.reply.value.username == "alice"
            && all.Success? && all.value.count == 2
            && all.value.log == [Exercise("run", 30, "2023-01-15"), Exercise("swim", 20, "Mon Jan 16 2023")]
            && one.Success? && one.value.count == 2
            && one.value.log == [Exercise("run", 30, "2023-01-15")]
  {
  }
}
