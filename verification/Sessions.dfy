/** Login sessions: pruning expired rows can never be noticed by a look-up. */
module Sessions {
  import opened Wrappers
  import opened TextOrder
  import opened Calendar
  import opened Timestamps

  /** Thirty days. */
  const SESSION_TTL: int := 30 * NANOS_PER_DAY

  datatype Row = Row(userId: int, expiresAt: string)

  type Rows = map<string, Row>

  /** What a look-up tells: the user and expiry of a live session, that there is none, or that the
      stored expiry cannot be read. */
  datatype Answer = Found(userId: int, expiresAt: int) | NotFound | Unreadable

  /** The clock reads a four-digit year, now and when a session created now will expire. */
  predicate InRange(now: int) {
    IsSecond(SecondOf(now)) && IsSecond(SecondOf(now + SESSION_TTL))
  }

  /** A duplicate token violates the primary key and inserts nothing. */
  function AfterCreate(rows: Rows, token: string, userId: int, now: int): Rows
    requires InRange(now)
  {
    if token in rows then rows else rows[token := Row(userId, Rfc3339(SecondOf(now + SESSION_TTL)))]
  }

  /** The comparison here is of texts at whole seconds. */
  function AfterPrune(rows: Rows, now: int): Rows
    requires InRange(now)
  {
    map token | token in rows && !Less(rows[token].expiresAt, Rfc3339(SecondOf(now))) :: rows[token]
  }

  /** The comparison here is of instants. */
  function LookUp(rows: Rows, token: string, now: int): Answer {
    if token !in rows then NotFound
    else
      var expiry := ParseRfc3339(rows[token].expiresAt);
      if expiry.None? then Unreadable
      else if expiry.value * NANOS_PER_SECOND < now then NotFound
      else Found(rows[token].userId, expiry.value)
  }

  /** The text is the printed form of the second. */
  ghost predicate ExpiresAt(text: string, t: int) {
    IsSecond(t) && text == Rfc3339(t)
  }

  lemma ReadExpiry(text: string, t: int)
    ensures ParseRfc3339(text) == Some(t) <==> ExpiresAt(text, t)
  {
    ParseInvertsRfc3339(text, t);
  }

  lemma AnswerOf(text: string, expiry: Option<int>, userId: int, now: int, r: Answer)
    requires forall t :: expiry == Some(t) <==> ExpiresAt(text, t)
    requires r == if expiry.None? then Unreadable
                  else if expiry.value * NANOS_PER_SECOND < now then NotFound else Found(userId, expiry.value)
    ensures forall u, t :: r == Found(u, t) <==> u == userId && ExpiresAt(text, t) && now <= t * NANOS_PER_SECOND
    ensures r == Unreadable <==> forall t :: !ExpiresAt(text, t)
    ensures r == NotFound <==> exists t :: ExpiresAt(text, t) && t * NANOS_PER_SECOND < now
  {
    if expiry.Some? {
      assert ExpiresAt(text, expiry.value);
    }
  }

  /** A look-up finds a session exactly while the second that its text prints has not passed, and calls
      a text unreadable that prints no second. */
  lemma LookUpAnswers(rows: Rows, token: string, now: int)
    ensures forall userId, t :: LookUp(rows, token, now) == Found(userId, t) <==>
              && token in rows && rows[token].userId == userId
              && ExpiresAt(rows[token].expiresAt, t) && now <= t * NANOS_PER_SECOND
    ensures LookUp(rows, token, now) == Unreadable <==>
              token in rows && forall t :: !ExpiresAt(rows[token].expiresAt, t)
    ensures LookUp(rows, token, now) == NotFound <==>
              token !in rows || exists t :: ExpiresAt(rows[token].expiresAt, t) && t * NANOS_PER_SECOND < now
  {
    if token in rows {
      var text := rows[token].expiresAt;
      forall t {
        ReadExpiry(text, t);
      }
      AnswerOf(text, ParseRfc3339(text), rows[token].userId, now, LookUp(rows, token, now));
    }
  }

  lemma PruneIsExact(rows: Rows, now: int)
    requires InRange(now)
    ensures forall token, t :: token in rows && ExpiresAt(rows[token].expiresAt, t) ==>
              (token in AfterPrune(rows, now) <==> SecondOf(now) <= t)
  {
    forall token, t | token in rows && ExpiresAt(rows[token].expiresAt, t)
      ensures token in AfterPrune(rows, now) <==> SecondOf(now) <= t
    {
      Rfc3339Order(t, SecondOf(now));
    }
  }

  class SessionStore {
    var rows: Rows

    constructor ()
      ensures rows == map[]
    {
      rows := map[];
    }

    method CreateSession(token: string, userId: int, now: int, healthy: bool) returns (ok: bool)
      requires InRange(now)
      modifies this
      ensures rows == if ok then AfterCreate(old(rows), token, userId, now) else old(rows)
      ensures ok ==> token !in old(rows)
                     && rows == old(rows)[token := Row(userId, Rfc3339((now + 2_592_000_000_000_000) / 1_000_000_000))]
      ensures healthy && token !in old(rows) ==> ok
    {
      var insertFails := Fails(healthy);
      if insertFails || token in rows {
        return false;
      }
      rows := rows[token := Row(userId, Rfc3339(SecondOf(now + SESSION_TTL)))];
      ok := true;
    }

    /** None if the query fails. */
    method SessionByToken(token: string, now: int, healthy: bool) returns (answer: Option<Answer>)
      ensures healthy ==> answer.Some?
      ensures answer.Some? ==> answer.value == LookUp(rows, token, now)
      ensures answer.Some? ==>
                forall userId, t :: answer.value == Found(userId, t) <==>
                  && token in rows && rows[token].userId == userId
                  && ExpiresAt(rows[token].expiresAt, t) && now <= t * NANOS_PER_SECOND
      ensures answer.Some? ==>
                (answer.value == Unreadable <==>
                  token in rows && forall t :: !ExpiresAt(rows[token].expiresAt, t))
      ensures answer.Some? ==>
                (answer.value == NotFound <==>
                  token !in rows || exists t :: ExpiresAt(rows[token].expiresAt, t) && t * NANOS_PER_SECOND < now)
    {
      var queryFails := Fails(healthy);
      if queryFails {
        return None;
      }
      LookUpAnswers(rows, token, now);
      if token !in rows {
        return Some(NotFound);
      }
      var expiry := ParseRfc3339(rows[token].expiresAt);
      if expiry.None? {
        return Some(Unreadable);
      }
      if expiry.value * NANOS_PER_SECOND < now {
        return Some(NotFound);
      }
      answer := Some(Found(rows[token].userId, expiry.value));
    }

    method DeleteSession(token: string, healthy: bool) returns (ok: bool)
      modifies this
      ensures rows == if ok then old(rows) - {token} else old(rows)
      ensures healthy ==> ok
    {
      var deleteFails := Fails(healthy);
      ok := !deleteFails;
      if ok {
        rows := rows - {token};
      }
    }

    /** A row whose text prints a second stays exactly if that second has not passed. */
    method DeleteExpiredSessions(now: int, healthy: bool) returns (ok: bool)
      requires InRange(now)
      modifies this
      ensures rows == if ok then AfterPrune(old(rows), now) else old(rows)
      ensures forall token :: token in rows ==> token in old(rows) && rows[token] == old(rows)[token]
      ensures ok ==>
                forall token, t :: token in old(rows) && ExpiresAt(old(rows)[token].expiresAt, t) ==>
                  (token in rows <==> now / 1_000_000_000 <= t)
      ensures healthy ==> ok
    {
      var deleteFails := Fails(healthy);
      ok := !deleteFails;
      if ok {
        PruneIsExact(rows, now);
        rows := map token | token in rows && !Less(rows[token].expiresAt, Rfc3339(SecondOf(now))) :: rows[token];
      }
    }
  }

  // ----- Traces -----

  datatype Op =
    | Create(token: string, userId: int, now: int)
    | Look(token: string, now: int)
    | LogOut(token: string)
    | Prune(now: int)

  function TimeOf(op: Op, now: int): int {
    if op.LogOut? then now else op.now
  }

  /** The clock never runs backwards, and new tokens were never used before. */
  ghost predicate Proper(now: int, used: set<string>, ops: seq<Op>)
    decreases |ops|
  {
    ops == [] ||
    (var op := ops[0];
     && now <= TimeOf(op, now) && (op.LogOut? || InRange(op.now))
     && (op.Create? ==> op.token !in used)
     && Proper(TimeOf(op, now), if op.Create? then used + {op.token} else used, ops[1..]))
  }

  function After(rows: Rows, op: Op, pruning: bool): Rows
    requires op.LogOut? || InRange(op.now)
  {
    match op
    case Create(token, userId, now) => AfterCreate(rows, token, userId, now)
    case Look(_, _) => rows
    case LogOut(token) => rows - {token}
    case Prune(now) => if pruning then AfterPrune(rows, now) else rows
  }

  /** The answers of every look-up in the trace. */
  ghost function Answers(now: int, used: set<string>, rows: Rows, ops: seq<Op>, pruning: bool): seq<Answer>
    requires Proper(now, used, ops)
    decreases |ops|
  {
    if ops == [] then []
    else
      var op := ops[0];
      (if op.Look? then [LookUp(rows, op.token, op.now)] else [])
      + Answers(TimeOf(op, now), if op.Create? then used + {op.token} else used,
                After(rows, op, pruning), ops[1..], pruning)
  }

  /** Every stored expiry is the printed form of a known second. */
  ghost predicate Printed(rows: Rows, expiry: map<string, int>) {
    forall token :: token in rows ==>
      token in expiry && IsSecond(expiry[token]) && rows[token].expiresAt == Rfc3339(expiry[token])
  }

  /** The pruned table lacks only rows that have expired. */
  ghost predicate LacksOnlyExpired(pruned: Rows, full: Rows, expiry: map<string, int>, now: int) {
    && (forall token :: token in pruned ==> token in full && pruned[token] == full[token])
    && (forall token :: token in full && token !in pruned ==> token in expiry && expiry[token] * NANOS_PER_SECOND < now)
  }

  /** Pruning by text at whole seconds only removes rows that the instant comparison rejects. */
  lemma PrunedRowHasExpired(rows: Rows, expiry: map<string, int>, token: string, now: int)
    requires Printed(rows, expiry) && InRange(now) && token in rows && token !in AfterPrune(rows, now)
    ensures token in expiry && expiry[token] * NANOS_PER_SECOND < now
  {
    assert rows[token].expiresAt == Rfc3339(expiry[token]);
    Rfc3339Order(expiry[token], SecondOf(now));
  }

  lemma ExpiredIsNotFound(rows: Rows, token: string, t: int, now: int)
    requires token in rows && IsSecond(t) && rows[token].expiresAt == Rfc3339(t) && t * NANOS_PER_SECOND < now
    ensures LookUp(rows, token, now) == NotFound
  {
    ParseOfRfc3339(t);
  }

  lemma SameRowSameAnswer(pruned: Rows, full: Rows, token: string, now: int)
    requires token in pruned && token in full && pruned[token] == full[token]
    ensures LookUp(pruned, token, now) == LookUp(full, token, now)
  {
  }

  lemma LookUpsAgree(pruned: Rows, full: Rows, expiry: map<string, int>, now: int, token: string, later: int)
    requires Printed(full, expiry) && LacksOnlyExpired(pruned, full, expiry, now) && now <= later
    ensures LookUp(pruned, token, later) == LookUp(full, token, later)
  {
    if token in pruned {
      SameRowSameAnswer(pruned, full, token, later);
    } else if token in full {
      ExpiredIsNotFound(full, token, expiry[token], later);
    }
  }

  ghost function ExpiryAfter(expiry: map<string, int>, op: Op): map<string, int> {
    if op.Create? then expiry[op.token := SecondOf(op.now + SESSION_TTL)] else expiry
  }

  lemma StepKeepsPrinted(full: Rows, expiry: map<string, int>, op: Op)
    requires Printed(full, expiry) && (op.LogOut? || InRange(op.now)) && (op.Create? ==> op.token !in full)
    ensures Printed(After(full, op, false), ExpiryAfter(expiry, op))
  {
  }

  lemma StepKeepsOnlyExpiredMissing(pruned: Rows, full: Rows, expiry: map<string, int>, now: int, op: Op)
    requires Printed(full, expiry) && LacksOnlyExpired(pruned, full, expiry, now)
    requires now <= TimeOf(op, now) && (op.LogOut? || InRange(op.now)) && (op.Create? ==> op.token !in full)
    ensures LacksOnlyExpired(After(pruned, op, true), After(full, op, false), ExpiryAfter(expiry, op), TimeOf(op, now))
  {
    if op.Prune? {
      forall token | token in pruned && token !in AfterPrune(pruned, op.now)
        ensures token in expiry && expiry[token] * NANOS_PER_SECOND < op.now
      {
        PrunedRowHasExpired(pruned, expiry, token, op.now);
      }
    }
  }

  lemma {:induction false} PruningKeepsAnswers(now: int, used: set<string>, pruned: Rows, full: Rows,
          expiry: map<string, int>, ops: seq<Op>)
    requires Proper(now, used, ops) && full.Keys <= used
    requires Printed(full, expiry) && LacksOnlyExpired(pruned, full, expiry, now)
    ensures Answers(now, used, pruned, ops, true) == Answers(now, used, full, ops, false)
    decreases |ops|
  {
    if ops != [] {
      var op := ops[0];
      if op.Look? {
        LookUpsAgree(pruned, full, expiry, now, op.token, op.now);
      }
      StepKeepsPrinted(full, expiry, op);
      StepKeepsOnlyExpiredMissing(pruned, full, expiry, now, op);
      PruningKeepsAnswers(TimeOf(op, now), if op.Create? then used + {op.token} else used,
                          After(pruned, op, true), After(full, op, false), ExpiryAfter(expiry, op), ops[1..]);
    }
  }

  /** Every look-up answers as it would in a store that never prunes. */
  lemma PruningIsUnobservable(now: int, ops: seq<Op>)
    requires Proper(now, {}, ops)
    ensures Answers(now, {}, map[], ops, true) == Answers(now, {}, map[], ops, false)
  {
    PruningKeepsAnswers(now, {}, map[], map[], map[], ops);
  }

  // ----- How long a session lasts -----

  /** What a look-up must answer for a session of `userId` that expires at second `t`. */
  function SessionAnswer(userId: int, t: int, now: int): Answer {
    if now <= t * NANOS_PER_SECOND then Found(userId, t) else NotFound
  }

  function Ending(answers: seq<Answer>): Answer
    requires answers != []
  {
    answers[|answers| - 1]
  }

  ghost predicate HasSession(rows: Rows, token: string, userId: int, t: int) {
    IsSecond(t) && token in rows && rows[token] == Row(userId, Rfc3339(t))
  }

  /** The last answer of a trace whose operations after the first end in an answer. */
  lemma EndingOfRest(now: int, used: set<string>, rows: Rows, ops: seq<Op>, rest: seq<Answer>)
    requires Proper(now, used, ops) && ops != []
    requires var op := ops[0];
             rest == Answers(TimeOf(op, now), if op.Create? then used + {op.token} else used, After(rows, op, false),
                             ops[1..], false)
    ensures rest != [] ==> Answers(now, used, rows, ops, false) != []
                           && Ending(Answers(now, used, rows, ops, false)) == Ending(rest)
  {
  }

  lemma StepKeepsSession(rows: Rows, op: Op, token: string, userId: int, t: int)
    requires HasSession(rows, token, userId, t) && (op.LogOut? || InRange(op.now)) && op != LogOut(token)
    ensures HasSession(After(rows, op, false), token, userId, t)
  {
  }

  lemma LookAtSession(rows: Rows, token: string, userId: int, t: int, at: int)
    requires HasSession(rows, token, userId, t)
    ensures LookUp(rows, token, at) == SessionAnswer(userId, t, at)
  {
    ParseOfRfc3339(t);
  }

  /** From a table that holds the session, until it is logged out, whatever else happens. */
  lemma {:induction false} AnswerUntilLogOut(now: int, used: set<string>, rows: Rows, between: seq<Op>,
          token: string, userId: int, t: int, at: int)
    requires Proper(now, used, between + [Look(token, at)]) && LogOut(token) !in between
    requires rows.Keys <= used && HasSession(rows, token, userId, t)
    ensures var answers := Answers(now, used, rows, between + [Look(token, at)], false);
            answers != [] && Ending(answers) == SessionAnswer(userId, t, at)
    decreases |between|
  {
    var ops := between + [Look(token, at)];
    if between == [] {
      LookAtSession(rows, token, userId, t, at);
      assert ops[1..] == [];
    } else {
      var op := between[0];
      assert ops[0] == op && ops[1..] == between[1..] + [Look(token, at)];
      StepKeepsSession(rows, op, token, userId, t);
      var (now', used', rows') :=
        (TimeOf(op, now), if op.Create? then used + {op.token} else used, After(rows, op, false));
      AnswerUntilLogOut(now', used', rows', between[1..], token, userId, t, at);
      EndingOfRest(now, used, rows, ops, Answers(now', used', rows', ops[1..], false));
    }
  }

  lemma CreatedSession(rows: Rows, token: string, userId: int, now: int)
    requires InRange(now) && token !in rows
    ensures HasSession(AfterCreate(rows, token, userId, now), token, userId, SecondOf(now + SESSION_TTL))
  {
  }

  lemma AnswerFromCreated(now: int, used: set<string>, rows: Rows, create: Op, created: Rows, t: int,
          between: seq<Op>, at: int)
    requires create.Create? && Proper(now, used, [create] + (between + [Look(create.token, at)]))
    requires LogOut(create.token) !in between
    requires created == After(rows, create, false) && created.Keys <= used + {create.token}
    requires HasSession(created, create.token, create.userId, t)
    ensures var answers := Answers(now, used, rows, [create] + (between + [Look(create.token, at)]), false);
            answers != [] && Ending(answers) == SessionAnswer(create.userId, t, at)
  {
    var ops := [create] + (between + [Look(create.token, at)]);
    assert ops[1..] == between + [Look(create.token, at)];
    AnswerUntilLogOut(create.now, used + {create.token}, created, between, create.token, create.userId, t, at);
    EndingOfRest(now, used, rows, ops, Answers(create.now, used + {create.token}, created, ops[1..], false));
  }

  lemma AnswerFromCreate(now: int, used: set<string>, rows: Rows, create: Op, between: seq<Op>, at: int)
    requires create.Create? && Proper(now, used, [create] + (between + [Look(create.token, at)]))
    requires rows.Keys <= used && LogOut(create.token) !in between
    ensures var answers := Answers(now, used, rows, [create] + (between + [Look(create.token, at)]), false);
            && answers != []
            && Ending(answers) == SessionAnswer(create.userId, SecondOf(create.now + SESSION_TTL), at)
  {
    CreatedSession(rows, create.token, create.userId, create.now);
    AnswerFromCreated(now, used, rows, create, After(rows, create, false), SecondOf(create.now + SESSION_TTL),
                      between, at);
  }

  lemma {:induction false} AnswerAfterCreate(now: int, used: set<string>, rows: Rows, before: seq<Op>, create: Op,
          between: seq<Op>, at: int)
    requires create.Create? && Proper(now, used, before + ([create] + (between + [Look(create.token, at)])))
    requires rows.Keys <= used && LogOut(create.token) !in between
    ensures var answers := Answers(now, used, rows, before + ([create] + (between + [Look(create.token, at)])), false);
            && answers != []
            && Ending(answers) == SessionAnswer(create.userId, SecondOf(create.now + SESSION_TTL), at)
    decreases |before|
  {
    var rest := [create] + (between + [Look(create.token, at)]);
    if before == [] {
      assert before + rest == rest;
      AnswerFromCreate(now, used, rows, create, between, at);
    } else {
      var (op, ops) := (before[0], before + rest);
      assert ops[0] == op && ops[1..] == before[1..] + rest;
      var (now', used', rows') :=
        (TimeOf(op, now), if op.Create? then used + {op.token} else used, After(rows, op, false));
      AnswerAfterCreate(now', used', rows', before[1..], create, between, at);
      EndingOfRest(now, used, rows, ops, Answers(now', used', rows', ops[1..], false));
    }
  }

  lemma ThirtyDays(now: int)
    ensures SecondOf(now + SESSION_TTL) == now / 1_000_000_000 + 2_592_000
  {
  }

  /** In every trace of a store that prunes, a session that was created and not logged out is found,
      with its user, exactly until the second 30 days on, 2_592_000 seconds, has passed. */
  lemma SessionLastsThirtyDays(now: int, before: seq<Op>, create: Op, between: seq<Op>, at: int)
    requires create.Create? && Proper(now, {}, before + ([create] + (between + [Look(create.token, at)])))
    requires LogOut(create.token) !in between
    ensures var answers := Answers(now, {}, map[], before + ([create] + (between + [Look(create.token, at)])), true);
            var expiry := create.now / 1_000_000_000 + 2_592_000;
            && answers != []
            && Ending(answers) == if at <= expiry * 1_000_000_000 then Found(create.userId, expiry) else NotFound
  {
    ThirtyDays(create.now);
    AnswerAfterCreate(now, {}, map[], before, create, between, at);
    PruningIsUnobservable(now, before + ([create] + (between + [Look(create.token, at)])));
  }

  // ----- Logging out -----

  ghost predicate NeverCreates(ops: seq<Op>, token: string) {
    forall i :: 0 <= i < |ops| && ops[i].Create? ==> ops[i].token != token
  }

  lemma StaysUnknown(rows: Rows, op: Op, token: string)
    requires token !in rows && (op.LogOut? || InRange(op.now)) && (op.Create? ==> op.token != token)
    ensures token !in After(rows, op, false)
  {
  }

  lemma {:induction false} NotFoundUntilCreated(now: int, used: set<string>, rows: Rows, between: seq<Op>,
          token: string, at: int)
    requires Proper(now, used, between + [Look(token, at)]) && token !in rows
    requires NeverCreates(between, token)
    ensures var answers := Answers(now, used, rows, between + [Look(token, at)], false);
            answers != [] && Ending(answers) == NotFound
    decreases |between|
  {
    var ops := between + [Look(token, at)];
    if between == [] {
      assert ops[1..] == [];
    } else {
      var op := between[0];
      assert ops[0] == op && ops[1..] == between[1..] + [Look(token, at)];
      var (now', used', rows') :=
        (TimeOf(op, now), if op.Create? then used + {op.token} else used, After(rows, op, false));
      StaysUnknown(rows, op, token);
      assert NeverCreates(between[1..], token);
      NotFoundUntilCreated(now', used', rows', between[1..], token, at);
      EndingOfRest(now, used, rows, ops, Answers(now', used', rows', ops[1..], false));
    }
  }

  lemma NotFoundFromLogOut(now: int, used: set<string>, rows: Rows, token: string, between: seq<Op>, at: int)
    requires Proper(now, used, [LogOut(token)] + (between + [Look(token, at)]))
    requires NeverCreates(between, token)
    ensures var answers := Answers(now, used, rows, [LogOut(token)] + (between + [Look(token, at)]), false);
            answers != [] && Ending(answers) == NotFound
  {
    var ops := [LogOut(token)] + (between + [Look(token, at)]);
    assert ops[1..] == between + [Look(token, at)];
    var after := After(rows, LogOut(token), false);
    NotFoundUntilCreated(now, used, after, between, token, at);
    EndingOfRest(now, used, rows, ops, Answers(now, used, after, ops[1..], false));
  }

  lemma {:induction false} NotFoundAfterLogOut(now: int, used: set<string>, rows: Rows, before: seq<Op>, token: string,
          between: seq<Op>, at: int)
    requires Proper(now, used, before + ([LogOut(token)] + (between + [Look(token, at)])))
    requires NeverCreates(between, token)
    ensures var answers := Answers(now, used, rows, before + ([LogOut(token)] + (between + [Look(token, at)])), false);
            answers != [] && Ending(answers) == NotFound
    decreases |before|
  {
    var rest := [LogOut(token)] + (between + [Look(token, at)]);
    if before == [] {
      assert before + rest == rest;
      NotFoundFromLogOut(now, used, rows, token, between, at);
    } else {
      var (op, ops) := (before[0], before + rest);
      assert ops[0] == op && ops[1..] == before[1..] + rest;
      var (now', used', rows') :=
        (TimeOf(op, now), if op.Create? then used + {op.token} else used, After(rows, op, false));
      NotFoundAfterLogOut(now', used', rows', before[1..], token, between, at);
      EndingOfRest(now, used, rows, ops, Answers(now', used', rows', ops[1..], false));
    }
  }

  /** A logged-out session is not found again: its token could only come back by being created anew. */
  lemma LogOutEndsSession(now: int, before: seq<Op>, token: string, between: seq<Op>, at: int)
    requires Proper(now, {}, before + ([LogOut(token)] + (between + [Look(token, at)])))
    requires NeverCreates(between, token)
    ensures var answers := Answers(now, {}, map[], before + ([LogOut(token)] + (between + [Look(token, at)])), true);
            answers != [] && Ending(answers) == NotFound
  {
    NotFoundAfterLogOut(now, {}, map[], before, token, between, at);
    PruningIsUnobservable(now, before + ([LogOut(token)] + (between + [Look(token, at)])));
  }
}
