/** Runs of the login handler that reach the bounds of LoginProtocol, so that neither can be lowered. */
module LoginExtremes {
  import opened RateLimit
  import opened LoginProtocol

  // ----- Building runs, all of them at one instant -----

  function Last(run: LoginRun): Logins
    requires run.states != []
  {
    run.states[|run.states| - 1]
  }

  function Start(): LoginRun {
    LoginRun([Logins(map[], multiset{}, 0)], [])
  }

  ghost function Then(cfg: Config, run: LoginRun, step: LoginStep): (longer: LoginRun)
    requires ValidLogins(cfg, run) && CanStep(Last(run), step)
    ensures ValidLogins(cfg, longer) && longer.states == run.states + [AfterStep(cfg, Last(run), step)]
  {
    LoginRun(run.states + [AfterStep(cfg, Last(run), step)], run.steps + [step])
  }

  function BeginNow(ip: string): LoginStep { Begin(ip, 0) }

  function FailNow(ip: string): LoginStep { Fail(ip, Readings(0, map[]), 0, 0) }

  // ----- As many addresses as the bound allows -----

  /** The n-th of infinitely many addresses. */
  function Address(n: nat): (ip: string)
    ensures |ip| == n
  {
    seq(n, i => '1')
  }

  /** Every tracked address is one of the first n. */
  ghost predicate AmongFirst(m: Attempts, n: nat) {
    forall ip :: ip in m ==> |ip| < n
  }

  lemma BeginNew(cfg: Config, m: Attempts, inFlight: multiset<string>, ip: string)
    requires cfg.maxAttempts > 0 && ip !in m
    ensures AfterStep(cfg, Logins(m, inFlight, 0), BeginNow(ip)) == Logins(m[ip := []], inFlight + multiset{ip}, 0)
  {
  }

  lemma BeginAgain(cfg: Config, m: Attempts, inFlight: multiset<string>, ip: string)
    requires cfg.maxAttempts > 0 && ip in m && m[ip] == []
    ensures AfterStep(cfg, Logins(m, inFlight, 0), BeginNow(ip)) == Logins(m, inFlight + multiset{ip}, 0)
  {
    assert m[ip := []] == m;
  }

  lemma SucceedForgets(cfg: Config, m: Attempts, inFlight: multiset<string>, ip: string)
    requires ip !in m && ip in inFlight
    ensures AfterStep(cfg, Logins(m[ip := []], inFlight, 0), Succeed(ip)) == Logins(m, inFlight - multiset{ip}, 0)
  {
    assert m[ip := []] - {ip} == m;
  }

  lemma FailNew(cfg: Config, m: Attempts, inFlight: multiset<string>, ip: string)
    requires ip !in m && |m| < cfg.maxKeys
    ensures AfterStep(cfg, Logins(m, inFlight, 0), FailNow(ip)) == Logins(m[ip := [0]], inFlight - multiset{ip}, 0)
  {
    assert [] + [0] == [0];
  }

  lemma BeginTwice(cfg: Config, run: LoginRun, ip: string) returns (longer: LoginRun)
    requires cfg.maxAttempts > 0 && ValidLogins(cfg, run)
    requires var s := Last(run); s == Logins(s.m, multiset{}, 0) && ip !in s.m
    ensures ValidLogins(cfg, longer) && Last(longer) == Logins(Last(run).m[ip := []], multiset{ip, ip}, 0)
  {
    var m := Last(run).m;
    BeginNew(cfg, m, multiset{}, ip);
    BeginAgain(cfg, m[ip := []], multiset{ip}, ip);
    var begun := Then(cfg, run, BeginNow(ip));
    longer := Then(cfg, begun, BeginNow(ip));
  }

  /** One more address with an attempt: two requests, the first of which succeeds. */
  lemma TrackOneMore(cfg: Config, run: LoginRun, ip: string) returns (longer: LoginRun)
    requires cfg.maxAttempts > 0 && ValidLogins(cfg, run)
    requires var s := Last(run); s == Logins(s.m, multiset{}, 0) && ip !in s.m && |s.m| < cfg.maxKeys
    ensures ValidLogins(cfg, longer) && Last(longer) == Logins(Last(run).m[ip := [0]], multiset{}, 0)
  {
    var m := Last(run).m;
    var twice := BeginTwice(cfg, run, ip);
    SucceedForgets(cfg, m, multiset{ip, ip}, ip);
    FailNew(cfg, m, multiset{ip}, ip);
    var forgotten := Then(cfg, twice, Succeed(ip));
    longer := Then(cfg, forgotten, FailNow(ip));
  }

  lemma TrackMany(cfg: Config, n: nat) returns (run: LoginRun)
    requires cfg.maxAttempts > 0 && n <= cfg.maxKeys
    ensures ValidLogins(cfg, run)
    ensures var s := Last(run); s == Logins(s.m, multiset{}, 0) && |s.m| == n && AmongFirst(s.m, n)
    ensures forall ip :: ip in Last(run).m ==> Last(run).m[ip] != []
  {
    if n == 0 {
      run := Start();
    } else {
      var smaller := TrackMany(cfg, n - 1);
      run := TrackOneMore(cfg, smaller, Address(n - 1));
    }
  }

  lemma BeginMany(cfg: Config, k: nat) returns (run: LoginRun)
    requires cfg.maxAttempts > 0
    ensures ValidLogins(cfg, run)
    ensures var s := Last(run);
            && s.now == 0 && |s.inFlight| == k && |s.m| == cfg.maxKeys + k && AmongFirst(s.m, cfg.maxKeys + k)
            && |NonEmpty(s.m)| == cfg.maxKeys
  {
    if k == 0 {
      run := TrackMany(cfg, cfg.maxKeys);
      var m := Last(run).m;
      assert NonEmpty(m) == m.Keys && |m| == |m.Keys|;
    } else {
      var fewer := BeginMany(cfg, k - 1);
      var (s, ip) := (Last(fewer), Address(cfg.maxKeys + k - 1));
      BeginNew(cfg, s.m, s.inFlight, ip);
      run := Then(cfg, fewer, BeginNow(ip));
      assert NonEmpty(s.m[ip := []]) == NonEmpty(s.m);
    }
  }

  /** For every k some run with k requests in flight tracks maxKeys + k addresses, maxKeys of them
      with attempts. */
  lemma MapSizeBoundIsReached(cfg: Config, k: nat)
    requires cfg.maxAttempts > 0
    ensures exists run, n: nat ::
              && ValidLogins(cfg, run) && n < |run.states| && |run.states[n].inFlight| == k
              && |run.states[n].m| == cfg.maxKeys + k && |NonEmpty(run.states[n].m)| == cfg.maxKeys
  {
    var run := BeginMany(cfg, k);
    var n := |run.states| - 1;
    assert ValidLogins(cfg, run) && n < |run.states| && run.states[n] == Last(run);
  }

  // ----- As many attempts as the bound allows -----

  function Zeros(n: nat): (times: seq<int>)
    ensures |times| == n
  {
    seq(n, i => 0)
  }

  lemma {:induction false} ZerosAreLive(n: nat, cutoff: int)
    requires cutoff < 0
    ensures After(Zeros(n), cutoff) == Zeros(n)
  {
    if n > 0 {
      ZerosAreLive(n - 1, cutoff);
      assert Zeros(n)[..n - 1] == Zeros(n - 1) && Zeros(n) == Zeros(n - 1) + [0];
    }
  }

  /** One address whose map entry holds n attempts, or none yet. */
  ghost predicate Holds(s: Logins, ip: string, n: nat, inFlight: nat) {
    s.now == 0 && s.m.Keys <= {ip} && Of(s.m, ip) == Zeros(n) && s.inFlight[ip] == inFlight
  }

  /** Some run never has more than `concurrent` requests of the address in flight, and ends as told. */
  ghost predicate Ends(cfg: Config, run: LoginRun, ip: string, concurrent: nat, n: nat, inFlight: nat) {
    && ValidLogins(cfg, run) && Holds(Last(run), ip, n, inFlight)
    && forall i :: 0 <= i < |run.states| ==> run.states[i].inFlight[ip] <= concurrent
  }

  lemma BeginHolds(cfg: Config, s: Logins, ip: string, n: nat, inFlight: nat)
    requires cfg.window > 0 && n < cfg.maxAttempts && Holds(s, ip, n, inFlight)
    ensures Holds(AfterStep(cfg, s, BeginNow(ip)), ip, n, inFlight + 1)
  {
    ZerosAreLive(n, 0 - cfg.window);
  }

  lemma FailHolds(cfg: Config, s: Logins, ip: string, n: nat, inFlight: nat)
    requires cfg.window > 0 && cfg.maxKeys > 0 && Holds(s, ip, n, inFlight + 1)
    ensures Holds(AfterStep(cfg, s, FailNow(ip)), ip, n + 1, inFlight)
  {
    ZerosAreLive(n, 0 - cfg.window);
    var kept := Roomy(cfg, s.m, Readings(0, map[]));
    assert kept.Keys <= {ip} && Of(kept, ip) == Zeros(n);
    if ip !in kept {
      assert kept.Keys == {} && |kept| == |kept.Keys|;
    }
    assert Zeros(n + 1) == Zeros(n) + [0];
  }

  lemma OneMoreBegin(cfg: Config, run: LoginRun, ip: string, concurrent: nat, n: nat, inFlight: nat)
    returns (longer: LoginRun)
    requires cfg.window > 0 && n < cfg.maxAttempts && inFlight < concurrent
    requires Ends(cfg, run, ip, concurrent, n, inFlight)
    ensures Ends(cfg, longer, ip, concurrent, n, inFlight + 1)
  {
    BeginHolds(cfg, Last(run), ip, n, inFlight);
    longer := Then(cfg, run, BeginNow(ip));
  }

  lemma OneMoreFail(cfg: Config, run: LoginRun, ip: string, concurrent: nat, n: nat, inFlight: nat)
    returns (longer: LoginRun)
    requires cfg.window > 0 && cfg.maxKeys > 0 && inFlight < concurrent
    requires Ends(cfg, run, ip, concurrent, n, inFlight + 1)
    ensures Ends(cfg, longer, ip, concurrent, n + 1, inFlight)
  {
    FailHolds(cfg, Last(run), ip, n, inFlight);
    longer := Then(cfg, run, FailNow(ip));
  }

  lemma FailInTurn(cfg: Config, ip: string, concurrent: nat, n: nat) returns (run: LoginRun)
    requires cfg.window > 0 && cfg.maxKeys > 0 && concurrent > 0 && n < cfg.maxAttempts
    ensures Ends(cfg, run, ip, concurrent, n, 0)
  {
    if n == 0 {
      run := Start();
    } else {
      run := FailInTurn(cfg, ip, concurrent, n - 1);
      run := OneMoreBegin(cfg, run, ip, concurrent, n - 1, 0);
      run := OneMoreFail(cfg, run, ip, concurrent, n - 1, 0);
    }
  }

  lemma BeginTogether(cfg: Config, ip: string, concurrent: nat, k: nat) returns (run: LoginRun)
    requires cfg.window > 0 && cfg.maxKeys > 0 && cfg.maxAttempts > 0 && k <= concurrent && concurrent > 0
    ensures Ends(cfg, run, ip, concurrent, cfg.maxAttempts - 1, k)
  {
    if k == 0 {
      run := FailInTurn(cfg, ip, concurrent, cfg.maxAttempts - 1);
    } else {
      run := BeginTogether(cfg, ip, concurrent, k - 1);
      run := OneMoreBegin(cfg, run, ip, concurrent, cfg.maxAttempts - 1, k - 1);
    }
  }

  lemma FailTogether(cfg: Config, ip: string, concurrent: nat, k: nat) returns (run: LoginRun)
    requires cfg.window > 0 && cfg.maxKeys > 0 && cfg.maxAttempts > 0 && k <= concurrent && concurrent > 0
    ensures Ends(cfg, run, ip, concurrent, cfg.maxAttempts - 1 + k, concurrent - k)
  {
    if k == 0 {
      run := BeginTogether(cfg, ip, concurrent, concurrent);
    } else {
      run := FailTogether(cfg, ip, concurrent, k - 1);
      run := OneMoreFail(cfg, run, ip, concurrent, cfg.maxAttempts - 1 + k - 1, concurrent - k);
    }
  }

  /** With `concurrent` requests at a time, one or more, some run of any address has
      maxAttempts - 1 + concurrent attempts inside the window. */
  lemma SlidingWindowBoundIsReached(cfg: Config, ip: string, concurrent: nat)
    requires cfg.maxAttempts > 0 && cfg.window > 0 && cfg.maxKeys > 0 && concurrent > 0
    ensures exists run, n: nat ::
              && ValidLogins(cfg, run) && n < |run.states|
              && (forall i :: 0 <= i <= n ==> run.states[i].inFlight[ip] <= concurrent)
              && |Live(cfg, run.states[n].m, ip, run.states[n].now)| == cfg.maxAttempts - 1 + concurrent
  {
    var run := FailTogether(cfg, ip, concurrent, concurrent);
    var n := |run.states| - 1;
    ZerosAreLive(cfg.maxAttempts - 1 + concurrent, 0 - cfg.window);
    assert ValidLogins(cfg, run) && n < |run.states| && run.states[n] == Last(run);
  }
}
