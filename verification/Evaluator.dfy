/** Which (account, threshold) pairs are due for a notification right now. */
module Evaluator {
  import opened Calendar
  import opened Domain

  /** `now` has reached UTC midnight of the day `daysBefore` days ahead of the expiration. */
  predicate Triggered(now: int, expiration: Date, daysBefore: int) {
    now >= (DayNumber(expiration) - daysBefore) * NANOS_PER_DAY
  }

  /** The decision for one pair, with the sent list scanned directly. */
  predicate IsDue(now: int, a: Account, t: Threshold, sent: set<SentKey>) {
    !a.doesNotExpire && t.enabled && Triggered(now, a.expiration, t.daysBefore)
    && SentKey(a.id, t.id, a.expiration) !in sent
  }

  function DueForAccount(now: int, a: Account, ts: seq<Threshold>, sent: set<SentKey>): seq<Pending> {
    if ts == [] then []
    else
      var t := ts[|ts| - 1];
      DueForAccount(now, a, ts[..|ts| - 1], sent) + if IsDue(now, a, t, sent) then [Pending(a, t)] else []
  }

  function Due(now: int, accts: seq<Account>, ts: seq<Threshold>, sent: set<SentKey>): seq<Pending> {
    if accts == [] then []
    else Due(now, accts[..|accts| - 1], ts, sent) + DueForAccount(now, accts[|accts| - 1], ts, sent)
  }

  // ----- What the result is -----

  ghost predicate PositionBefore(p: (nat, nat), q: (nat, nat)) {
    p.0 < q.0 || (p.0 == q.0 && p.1 < q.1)
  }

  lemma {:induction false} DueThresholdPositions(now: int, a: Account, ts: seq<Threshold>, sent: set<SentKey>)
    returns (row: seq<nat>)
    ensures var due := DueForAccount(now, a, ts, sent);
            |row| == |due| && forall i :: 0 <= i < |row| ==> row[i] < |ts| && due[i] == Pending(a, ts[row[i]])
    ensures forall i, j :: 0 <= i < j < |row| ==> row[i] < row[j]
    ensures forall n: nat :: n < |ts| ==> (n in row <==> IsDue(now, a, ts[n], sent))
  {
    if ts == [] {
      row := [];
    } else {
      var k := |ts| - 1;
      row := DueThresholdPositions(now, a, ts[..k], sent);
      if IsDue(now, a, ts[k], sent) {
        row := row + [k];
      }
    }
  }

  ghost predicate Located(accts: seq<Account>, ts: seq<Threshold>, due: seq<Pending>, pos: seq<(nat, nat)>) {
    && |pos| == |due|
    && forall i :: 0 <= i < |pos| ==>
        pos[i].0 < |accts| && pos[i].1 < |ts| && due[i] == Pending(accts[pos[i].0], ts[pos[i].1])
  }

  ghost predicate AccountMajor(pos: seq<(nat, nat)>) {
    forall i, j :: 0 <= i < j < |pos| ==> PositionBefore(pos[i], pos[j])
  }

  ghost predicate ExactlyTheDue(now: int, accts: seq<Account>, ts: seq<Threshold>, sent: set<SentKey>,
          pos: seq<(nat, nat)>) {
    forall m: nat, n: nat :: m < |accts| && n < |ts| ==> ((m, n) in pos <==> IsDue(now, accts[m], ts[n], sent))
  }

  function InRow(m: nat, row: seq<nat>): (pos: seq<(nat, nat)>)
    ensures |pos| == |row| && forall i :: 0 <= i < |row| ==> pos[i] == (m, row[i])
  {
    seq(|row|, i requires 0 <= i < |row| => (m, row[i]))
  }

  lemma RowKeepsLocation(accts: seq<Account>, ts: seq<Threshold>, before: seq<Pending>, earlier: seq<(nat, nat)>,
          more: seq<Pending>, row: seq<nat>)
    requires accts != [] && Located(accts[..|accts| - 1], ts, before, earlier)
    requires |row| == |more|
    requires forall i :: 0 <= i < |row| ==> row[i] < |ts| && more[i] == Pending(accts[|accts| - 1], ts[row[i]])
    ensures Located(accts, ts, before + more, earlier + InRow(|accts| - 1, row))
  {
  }

  lemma RowKeepsOrder(k: nat, earlier: seq<(nat, nat)>, row: seq<nat>)
    requires AccountMajor(earlier) && forall i :: 0 <= i < |earlier| ==> earlier[i].0 < k
    requires forall i, j :: 0 <= i < j < |row| ==> row[i] < row[j]
    ensures AccountMajor(earlier + InRow(k, row))
  {
  }

  lemma InRowMembership(m: nat, row: seq<nat>, n: nat)
    ensures (m, n) in InRow(m, row) <==> n in row
  {
    if n in row {
      var i :| 0 <= i < |row| && row[i] == n;
      assert InRow(m, row)[i] == (m, n);
    }
  }

  lemma RowKeepsCompleteness(now: int, accts: seq<Account>, ts: seq<Threshold>, sent: set<SentKey>,
          earlier: seq<(nat, nat)>, row: seq<nat>)
    requires accts != []
    requires forall p :: p in earlier ==> p.0 < |accts| - 1
    requires ExactlyTheDue(now, accts[..|accts| - 1], ts, sent, earlier)
    requires forall n: nat :: n < |ts| ==> (n in row <==> IsDue(now, accts[|accts| - 1], ts[n], sent))
    ensures ExactlyTheDue(now, accts, ts, sent, earlier + InRow(|accts| - 1, row))
  {
    var k := |accts| - 1;
    forall m: nat, n: nat | m < |accts| && n < |ts|
      ensures (m, n) in earlier + InRow(k, row) <==> IsDue(now, accts[m], ts[n], sent)
    {
      InRowMembership(k, row, n);
      if m < k {
        assert accts[..k][m] == accts[m];
        assert (m, n) in earlier <==> IsDue(now, accts[..k][m], ts[n], sent);
      }
    }
  }

  /** The result lists, in strictly account-major order, exactly the pairs that are due. */
  lemma {:induction false} DuePositions(now: int, accts: seq<Account>, ts: seq<Threshold>, sent: set<SentKey>)
    returns (pos: seq<(nat, nat)>)
    ensures Located(accts, ts, Due(now, accts, ts, sent), pos)
    ensures AccountMajor(pos)
    ensures ExactlyTheDue(now, accts, ts, sent, pos)
  {
    if accts == [] {
      pos := [];
    } else {
      var k := |accts| - 1;
      var earlier := DuePositions(now, accts[..k], ts, sent);
      var row := DueThresholdPositions(now, accts[k], ts, sent);
      pos := earlier + InRow(k, row);
      RowKeepsLocation(accts, ts, Due(now, accts[..k], ts, sent), earlier, DueForAccount(now, accts[k], ts, sent), row);
      RowKeepsOrder(k, earlier, row);
      RowKeepsCompleteness(now, accts, ts, sent, earlier, row);
    }
  }

  /** Membership: a pair is returned exactly when both rows were read and the pair is due. */
  lemma DueMembership(now: int, accts: seq<Account>, ts: seq<Threshold>, sent: set<SentKey>, p: Pending)
    ensures p in Due(now, accts, ts, sent)
            <==> p.account in accts && p.threshold in ts && IsDue(now, p.account, p.threshold, sent)
  {
    var pos := DuePositions(now, accts, ts, sent);
    var due := Due(now, accts, ts, sent);
    if p in due {
      var i :| 0 <= i < |due| && due[i] == p;
      assert (pos[i].0, pos[i].1) in pos;
    }
    if p.account in accts && p.threshold in ts && IsDue(now, p.account, p.threshold, sent) {
      var m :| 0 <= m < |accts| && accts[m] == p.account;
      var n :| 0 <= n < |ts| && ts[n] == p.threshold;
      assert (m, n) in pos;
      var i :| 0 <= i < |pos| && pos[i] == (m, n);
      assert due[i] == p;
    }
  }

  /** With distinct ids no key is returned twice. */
  lemma DueKeysAreDistinct(now: int, accts: seq<Account>, ts: seq<Threshold>, sent: set<SentKey>, i: nat, j: nat)
    requires UniqueAccountIds(accts) && UniqueThresholdIds(ts)
    requires i < j < |Due(now, accts, ts, sent)|
    ensures KeyOf(Due(now, accts, ts, sent)[i]) != KeyOf(Due(now, accts, ts, sent)[j])
  {
    var pos := DuePositions(now, accts, ts, sent);
    assert PositionBefore(pos[i], pos[j]);
  }

  // ----- The loops -----

  datatype TextKey = TextKey(accountId: int, thresholdId: int, expiration: string)

  function DateKey(k: SentKey): TextKey {
    TextKey(k.accountId, k.thresholdId, Format(k.date))
  }

  lemma TextKeysAreFaithful(k: SentKey, sent: seq<SentKey>)
    ensures DateKey(k) in (set s | s in sent :: DateKey(s)) <==> k in sent
  {
    forall s | s in sent
      ensures DateKey(s) == DateKey(k) <==> s == k
    {
      FormatIsInjective(s.date, k.date);
    }
  }

  lemma {:induction false} NoneDueForNeverExpiring(now: int, a: Account, ts: seq<Threshold>, sent: set<SentKey>)
    requires a.doesNotExpire
    ensures DueForAccount(now, a, ts, sent) == []
  {
    if ts != [] {
      NoneDueForNeverExpiring(now, a, ts[..|ts| - 1], sent);
    }
  }

  /** The nested loops over a hash set of text keys compute exactly the pairs due. */
  method Evaluate(now: int, accts: seq<Account>, ts: seq<Threshold>, sent: seq<SentKey>)
    returns (pending: seq<Pending>)
    ensures pending == Due(now, accts, ts, set s | s in sent)
    ensures forall a, t :: Pending(a, t) in pending <==>
              && a in accts && t in ts && !a.doesNotExpire && t.enabled
              && now >= (DayNumber(a.expiration) - t.daysBefore) * 86_400_000_000_000
              && SentKey(a.id, t.id, a.expiration) !in sent
  {
    ghost var sentKeys := set s | s in sent;
    var sentSet: set<TextKey> := {};
    for i := 0 to |sent|
      invariant sentSet == set s | s in sent[..i] :: DateKey(s)
    {
      sentSet := sentSet + {DateKey(sent[i])};
    }
    assert sent[..|sent|] == sent;

    pending := [];
    for i := 0 to |accts|
      invariant pending == Due(now, accts[..i], ts, sentKeys)
    {
      var a := accts[i];
      assert accts[..i + 1][..i] == accts[..i];
      if a.doesNotExpire {
        NoneDueForNeverExpiring(now, a, ts, sentKeys);
        continue;
      }
      ghost var before := pending;
      for j := 0 to |ts|
        invariant pending == before + DueForAccount(now, a, ts[..j], sentKeys)
      {
        var t := ts[j];
        assert ts[..j + 1][..j] == ts[..j];
        if !t.enabled {
          continue;
        }
        var triggerDay := DayNumber(a.expiration) - t.daysBefore;
        if now < triggerDay * NANOS_PER_DAY {
          continue;
        }
        TextKeysAreFaithful(SentKey(a.id, t.id, a.expiration), sent);
        if TextKey(a.id, t.id, Format(a.expiration)) in sentSet {
          continue;
        }
        pending := pending + [Pending(a, t)];
      }
      assert ts[..|ts|] == ts;
    }
    assert accts[..|accts|] == accts;
    forall a, t {
      DueMembership(now, accts, ts, sentKeys, Pending(a, t));
    }
  }

  // ----- How the result changes -----

  function StillDue(now: int, ps: seq<Pending>, sent: set<SentKey>): seq<Pending> {
    if ps == [] then []
    else
      var p := ps[|ps| - 1];
      StillDue(now, ps[..|ps| - 1], sent) + if IsDue(now, p.account, p.threshold, sent) then [p] else []
  }

  lemma {:induction false} StillDueConcat(now: int, a: seq<Pending>, b: seq<Pending>, sent: set<SentKey>)
    ensures StillDue(now, a + b, sent) == StillDue(now, a, sent) + StillDue(now, b, sent)
  {
    if b == [] {
      assert a + b == a;
    } else {
      assert (a + b)[..|a + b| - 1] == a + b[..|b| - 1];
      StillDueConcat(now, a, b[..|b| - 1], sent);
    }
  }

  lemma {:induction false} DueForAccountNarrows(now: int, later: int, a: Account, ts: seq<Threshold>,
          sent: set<SentKey>, more: set<SentKey>)
    requires now <= later && sent <= more
    ensures DueForAccount(now, a, ts, more) == StillDue(now, DueForAccount(later, a, ts, sent), more)
  {
    if ts != [] {
      var k := |ts| - 1;
      DueForAccountNarrows(now, later, a, ts[..k], sent, more);
      var front := DueForAccount(later, a, ts[..k], sent);
      var last := if IsDue(later, a, ts[k], sent) then [Pending(a, ts[k])] else [];
      StillDueConcat(now, front, last, more);
    }
  }

  /** An earlier clock or more recorded rows only remove pairs, keeping the others in order. */
  lemma {:induction false} DueNarrows(now: int, later: int, accts: seq<Account>, ts: seq<Threshold>,
          sent: set<SentKey>, more: set<SentKey>)
    requires now <= later && sent <= more
    ensures Due(now, accts, ts, more) == StillDue(now, Due(later, accts, ts, sent), more)
  {
    if accts != [] {
      var k := |accts| - 1;
      DueNarrows(now, later, accts[..k], ts, sent, more);
      DueForAccountNarrows(now, later, accts[k], ts, sent, more);
      StillDueConcat(now, Due(later, accts[..k], ts, sent), DueForAccount(later, accts[k], ts, sent), more);
    }
  }

  // ----- The trigger in calendar terms -----

  function Advance(d: Date, n: nat): (r: Date)
    requires DayNumber(d) + n <= DayNumber(NEVER_EXPIRES)
    ensures DayNumber(r) == DayNumber(d) + n
  {
    if n == 0 then d
    else
      var p := Advance(d, n - 1);
      NextDateIsNextNumber(p);
      NextDate(p)
  }

  lemma DayReached(now: int, today: int, day: int)
    requires today * NANOS_PER_DAY <= now < (today + 1) * NANOS_PER_DAY
    ensures now >= day * NANOS_PER_DAY <==> today >= day
  {
  }

  /** With a day count of zero or more, a threshold has triggered exactly when, in UTC, stepping that
      many days on from today's date reaches the expiration date or a later one, or leaves the year
      9999; with a negative one, when today has reached the date that many days after it. */
  lemma TriggeredByCalendar(now: int, today: Date, expiration: Date, n: int)
    requires DayNumber(today) * NANOS_PER_DAY <= now < (DayNumber(today) + 1) * NANOS_PER_DAY
    ensures Triggered(now, expiration, n) <==>
            if n >= 0 then
              DayNumber(today) + n > DayNumber(NEVER_EXPIRES) || !Before(Advance(today, n), expiration)
            else
              DayNumber(expiration) - n <= DayNumber(NEVER_EXPIRES) && !Before(today, Advance(expiration, -n))
  {
    DayReached(now, DayNumber(today), DayNumber(expiration) - n);
    DayNumberOrder(NEVER_EXPIRES, expiration);
    DayNumberOrder(NEVER_EXPIRES, today);
    if n >= 0 {
      if DayNumber(today) + n <= DayNumber(NEVER_EXPIRES) {
        DayNumberOrder(Advance(today, n), expiration);
      }
    } else if DayNumber(expiration) - n <= DayNumber(NEVER_EXPIRES) {
      DayNumberOrder(today, Advance(expiration, -n));
    }
  }
}
