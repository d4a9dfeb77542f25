/** Login requests as the handler makes them: Allow, then a password comparison during which other
    requests run, then RecordFailure or RecordSuccess. */
module LoginProtocol {
  import opened FiniteSets
  import opened RateLimit

  /** `inFlight` counts, per address, the requests between a permitting Allow and their record. */
  datatype Logins = Logins(m: Attempts, inFlight: multiset<string>, now: int)

  datatype LoginStep =
    | Begin(ip: string, at: int)
    | Fail(ip: string, r: Readings, pruned: int, stamped: int)
    | Succeed(ip: string)
    | Sweep(r: Readings, end: int)

  ghost predicate CanStep(s: Logins, step: LoginStep) {
    match step
    case Begin(_, at) => s.now <= at
    case Fail(ip, r, pruned, stamped) => ip in s.inFlight && s.now <= r.start && r.Within(pruned) && pruned <= stamped
    case Succeed(ip) => ip in s.inFlight
    case Sweep(r, end) => s.now <= r.start && r.Within(end)
  }

  ghost function AfterStep(cfg: Config, s: Logins, step: LoginStep): Logins {
    match step
    case Begin(ip, at) =>
      var permitted := |Live(cfg, s.m, ip, at)| < cfg.maxAttempts;
      Logins(AfterAllow(cfg, s.m, ip, at), if permitted then s.inFlight + multiset{ip} else s.inFlight, at)
    case Fail(ip, r, pruned, stamped) =>
      Logins(AfterFailure(cfg, s.m, ip, r, pruned, stamped), s.inFlight - multiset{ip}, stamped)
    case Succeed(ip) => Logins(s.m - {ip}, s.inFlight - multiset{ip}, s.now)
    case Sweep(r, end) => Logins(Cleaned(cfg, s.m, r), s.inFlight, end)
  }

  datatype LoginRun = LoginRun(states: seq<Logins>, steps: seq<LoginStep>)

  ghost predicate ValidLogins(cfg: Config, run: LoginRun) {
    && |run.states| == |run.steps| + 1
    && run.states[0].m == map[] && run.states[0].inFlight == multiset{}
    && forall i :: 0 <= i < |run.steps| ==>
         CanStep(run.states[i], run.steps[i]) && run.states[i + 1] == AfterStep(cfg, run.states[i], run.steps[i])
  }

  // ----- How large the map gets -----

  function NonEmpty(m: Attempts): set<string> {
    set ip | ip in m && m[ip] != []
  }

  /** At most `maxKeys` addresses have attempts, and every empty entry belongs to a request in flight. */
  ghost predicate Tracked(cfg: Config, s: Logins) {
    |NonEmpty(s.m)| <= cfg.maxKeys && forall ip :: ip in s.m && s.m[ip] == [] ==> ip in s.inFlight
  }

  lemma LiveKeysAreNonEmpty(cfg: Config, m: Attempts, r: Readings)
    ensures Cleaned(cfg, m, r).Keys <= NonEmpty(m) <= m.Keys
    ensures NonEmpty(Cleaned(cfg, m, r)) <= NonEmpty(m)
  {
  }

  lemma FailureKeepsMapCapped(cfg: Config, m: Attempts, ip: string, r: Readings, pruned: int, stamped: int)
    requires |NonEmpty(m)| <= cfg.maxKeys
    ensures |AfterFailure(cfg, m, ip, r, pruned, stamped)| <= cfg.maxKeys
    ensures |NonEmpty(AfterFailure(cfg, m, ip, r, pruned, stamped))| <= cfg.maxKeys
  {
    var (kept, m') := (Roomy(cfg, m, r), AfterFailure(cfg, m, ip, r, pruned, stamped));
    LiveKeysAreNonEmpty(cfg, m, r);
    assert |kept| == |kept.Keys|;
    if |m| >= cfg.maxKeys {
      SubsetSize(kept.Keys, NonEmpty(m));
    }
    if !Dropped(cfg, m, ip, r) {
      assert m'.Keys == kept.Keys + {ip};
      if ip in kept {
        assert m'.Keys == kept.Keys;
      }
    }
    assert |m'| == |m'.Keys|;
    SubsetSize(NonEmpty(m'), m'.Keys);
  }

  lemma StepKeepsTracked(cfg: Config, s: Logins, step: LoginStep)
    requires cfg.maxAttempts > 0 && CanStep(s, step) && Tracked(cfg, s)
    ensures Tracked(cfg, AfterStep(cfg, s, step))
  {
    var s' := AfterStep(cfg, s, step);
    match step {
      case Begin(ip, at) =>
        SubsetSize(NonEmpty(s'.m), NonEmpty(s.m));
      case Fail(ip, r, pruned, stamped) =>
        FailureKeepsMapCapped(cfg, s.m, ip, r, pruned, stamped);
        forall other | other in s'.m && s'.m[other] == []
          ensures other in s'.inFlight
        {
          assert other in Roomy(cfg, s.m, r);
          assert other != ip;
          assert s.m[other] == [] && s'.inFlight[other] == s.inFlight[other];
        }
      case Succeed(ip) =>
        SubsetSize(NonEmpty(s'.m), NonEmpty(s.m));
        forall other | other in s'.m && s'.m[other] == []
          ensures other in s'.inFlight
        {
          assert s.m[other] == [] && s'.inFlight[other] == s.inFlight[other];
        }
      case Sweep(r, _) =>
        LiveKeysAreNonEmpty(cfg, s.m, r);
        SubsetSize(NonEmpty(s'.m), NonEmpty(s.m));
    }
  }

  lemma {:induction false} RunsStayTracked(cfg: Config, run: LoginRun, n: nat)
    requires cfg.maxAttempts > 0 && ValidLogins(cfg, run) && n <= |run.steps|
    ensures Tracked(cfg, run.states[n])
  {
    if n == 0 {
      assert NonEmpty(run.states[0].m) == {};
    } else {
      RunsStayTracked(cfg, run, n - 1);
      StepKeepsTracked(cfg, run.states[n - 1], run.steps[n - 1]);
    }
  }

  lemma {:induction false} SupportSize(s: set<string>, counts: multiset<string>)
    requires forall x :: x in s ==> x in counts
    ensures |s| <= |counts|
  {
    if s != {} {
      var x :| x in s;
      SupportSize(s - {x}, counts - multiset{x});
      assert |counts| == |counts - multiset{x}| + 1;
    }
  }

  /** With k requests in flight the map holds at most maxKeys + k addresses, at most maxKeys of them
      with attempts. */
  lemma MapSizeBound(cfg: Config, run: LoginRun, n: nat)
    requires cfg.maxAttempts > 0 && ValidLogins(cfg, run) && n <= |run.steps|
    ensures |NonEmpty(run.states[n].m)| <= cfg.maxKeys
    ensures |run.states[n].m| <= cfg.maxKeys + |run.states[n].inFlight|
  {
    RunsStayTracked(cfg, run, n);
    var (m, inFlight) := (run.states[n].m, run.states[n].inFlight);
    var empty := m.Keys - NonEmpty(m);
    SupportSize(empty, inFlight);
    assert m.Keys == NonEmpty(m) + empty;
    assert |m| == |m.Keys|;
  }

  /** Right after any recorded failure, dropped or not, the whole map is within the cap, however many
      requests are in flight. */
  lemma MapCappedAfterFailures(cfg: Config, run: LoginRun, n: nat)
    requires cfg.maxAttempts > 0 && ValidLogins(cfg, run) && n < |run.steps| && run.steps[n].Fail?
    ensures |run.states[n + 1].m| <= cfg.maxKeys
  {
    RunsStayTracked(cfg, run, n);
    var (m, step) := (run.states[n].m, run.steps[n]);
    FailureKeepsMapCapped(cfg, m, step.ip, step.r, step.pruned, step.stamped);
  }

  /** The cap alone does not bound the map: merely asking about a new address at the cap exceeds it. */
  lemma AllowCanExceedCap(cfg: Config, m: Attempts, ip: string, at: int)
    ensures |AfterAllow(cfg, m, ip, at)| > cfg.maxKeys <==> |m| > cfg.maxKeys || (|m| == cfg.maxKeys && ip !in m)
  {
    var m' := AfterAllow(cfg, m, ip, at);
    assert m'.Keys == m.Keys + {ip};
    assert |m'| == |m'.Keys| && |m| == |m.Keys|;
    if ip in m {
      assert m'.Keys == m.Keys;
    }
  }

  // ----- How many attempts fit in a window -----

  ghost predicate WithinBudget(cfg: Config, s: Logins, ip: string, concurrent: nat) {
    |Live(cfg, s.m, ip, s.now)| + s.inFlight[ip] <= cfg.maxAttempts + concurrent - 1
  }

  lemma LiveShrinks(cfg: Config, m: Attempts, ip: string, now: int, later: int)
    requires now <= later
    ensures |Live(cfg, m, ip, later)| <= |Live(cfg, m, ip, now)|
    ensures After(Live(cfg, m, ip, now), later - cfg.window) == Live(cfg, m, ip, later)
  {
    AfterAfter(Of(m, ip), now - cfg.window, later - cfg.window);
  }

  lemma RoomyLiveShrinks(cfg: Config, m: Attempts, r: Readings, ip: string, now: int, pruned: int)
    requires now <= r.start && r.Within(pruned)
    ensures |Live(cfg, Roomy(cfg, m, r), ip, pruned)| <= |Live(cfg, m, ip, now)|
  {
    CleanedLive(cfg, m, r, pruned, ip);
    LiveShrinks(cfg, m, ip, now, pruned);
  }

  lemma AppendedLive(times: seq<int>, t: int, earlier: int, cutoff: int)
    requires earlier <= cutoff
    ensures |After(After(times, earlier) + [t], cutoff)| <= |After(times, earlier)| + 1
  {
    AfterAfter(times, earlier, cutoff);
    AfterAppend(After(times, earlier), t, cutoff);
  }

  lemma FailureAddsAtMostOne(cfg: Config, m: Attempts, now: int, failed: string, r: Readings, pruned: int,
          stamped: int, ip: string)
    requires now <= r.start && r.Within(pruned) && pruned <= stamped
    ensures |Live(cfg, AfterFailure(cfg, m, failed, r, pruned, stamped), ip, stamped)|
            <= |Live(cfg, m, ip, now)| + if ip == failed then 1 else 0
  {
    var (kept, m') := (Roomy(cfg, m, r), AfterFailure(cfg, m, failed, r, pruned, stamped));
    RoomyLiveShrinks(cfg, m, r, ip, now, pruned);
    if ip == failed && !Dropped(cfg, m, ip, r) {
      assert Of(m', ip) == After(Of(kept, ip), pruned - cfg.window) + [stamped];
      AppendedLive(Of(kept, ip), stamped, pruned - cfg.window, stamped - cfg.window);
    } else {
      assert Of(m', ip) == Of(kept, ip);
      LiveShrinks(cfg, kept, ip, pruned, stamped);
    }
  }

  lemma BeginKeepsBudget(cfg: Config, s: Logins, begun: string, at: int, ip: string, concurrent: nat)
    requires cfg.maxAttempts > 0 && s.now <= at && WithinBudget(cfg, s, ip, concurrent)
    requires AfterStep(cfg, s, Begin(begun, at)).inFlight[ip] <= concurrent
    ensures WithinBudget(cfg, AfterStep(cfg, s, Begin(begun, at)), ip, concurrent)
  {
    LiveShrinks(cfg, s.m, ip, s.now, at);
    LiveShrinks(cfg, s.m, ip, at, at);
    var m' := AfterAllow(cfg, s.m, begun, at);
    assert Live(cfg, m', ip, at) == Live(cfg, s.m, ip, at) by {
      assert ip != begun ==> Of(m', ip) == Of(s.m, ip);
    }
  }

  lemma StepKeepsBudget(cfg: Config, s: Logins, step: LoginStep, ip: string, concurrent: nat)
    requires cfg.maxAttempts > 0 && CanStep(s, step) && WithinBudget(cfg, s, ip, concurrent)
    requires AfterStep(cfg, s, step).inFlight[ip] <= concurrent
    ensures WithinBudget(cfg, AfterStep(cfg, s, step), ip, concurrent)
  {
    match step {
      case Begin(begun, at) =>
        BeginKeepsBudget(cfg, s, begun, at, ip, concurrent);
      case Fail(failed, r, pruned, stamped) =>
        FailureAddsAtMostOne(cfg, s.m, s.now, failed, r, pruned, stamped, ip);
      case Succeed(_) =>
      case Sweep(r, end) =>
        CleanedLive(cfg, s.m, r, end, ip);
        LiveShrinks(cfg, s.m, ip, s.now, end);
    }
  }

  lemma {:induction false} RunsStayWithinBudget(cfg: Config, run: LoginRun, n: nat, ip: string, concurrent: nat)
    requires cfg.maxAttempts > 0 && ValidLogins(cfg, run) && n <= |run.steps|
    requires forall i :: 0 <= i <= n ==> run.states[i].inFlight[ip] <= concurrent
    ensures WithinBudget(cfg, run.states[n], ip, concurrent)
  {
    if n > 0 {
      RunsStayWithinBudget(cfg, run, n - 1, ip, concurrent);
      assert run.states[n] == AfterStep(cfg, run.states[n - 1], run.steps[n - 1]);
      StepKeepsBudget(cfg, run.states[n - 1], run.steps[n - 1], ip, concurrent);
    }
  }

  /** If an address never has more than `concurrent` requests in flight, it never has more than
      maxAttempts - 1 + concurrent attempts inside the window, now or later: maxAttempts if its
      requests come one after the other. */
  lemma SlidingWindowBound(cfg: Config, run: LoginRun, n: nat, ip: string, concurrent: nat, t: int)
    requires cfg.maxAttempts > 0 && ValidLogins(cfg, run) && n <= |run.steps|
    requires forall i :: 0 <= i <= n ==> run.states[i].inFlight[ip] <= concurrent
    requires run.states[n].now <= t
    ensures |Live(cfg, run.states[n].m, ip, t)| <= cfg.maxAttempts - 1 + concurrent
  {
    RunsStayWithinBudget(cfg, run, n, ip, concurrent);
    LiveShrinks(cfg, run.states[n].m, ip, run.states[n].now, t);
  }
}
