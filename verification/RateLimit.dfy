/** The login limiter: a lazily pruned, capped map of recent failures, and the unbounded log of
    failures that it stands for. */
module RateLimit {
  import opened FiniteSets

  /** `maxAttempts` failures per `window` nanoseconds, for at most `maxKeys` tracked addresses. */
  datatype Config = Config(maxAttempts: nat, window: nat, maxKeys: nat)

  type Attempts = map<string, seq<int>>

  function Of(m: Attempts, ip: string): seq<int> {
    if ip in m then m[ip] else []
  }

  /** The attempts strictly after `cutoff`, in order. */
  function After(times: seq<int>, cutoff: int): seq<int> {
    if times == [] then []
    else After(times[..|times| - 1], cutoff) + if times[|times| - 1] > cutoff then [times[|times| - 1]] else []
  }

  /** `kept` is what stands at the positions `pos`, from left to right: those after the cutoff. */
  ghost predicate Picks(times: seq<int>, cutoff: int, kept: seq<int>, pos: seq<nat>) {
    && |pos| == |kept|
    && (forall k :: 0 <= k < |pos| ==> pos[k] < |times| && kept[k] == times[pos[k]])
    && (forall k, l :: 0 <= k < l < |pos| ==> pos[k] < pos[l])
    && forall i: nat :: i < |times| ==> (i in pos <==> times[i] > cutoff)
  }

  lemma PicksOneMore(times: seq<int>, cutoff: int, kept: seq<int>, pos: seq<nat>, t: int)
    requires Picks(times, cutoff, kept, pos)
    ensures t > cutoff ==> Picks(times + [t], cutoff, kept + [t], pos + [|times|])
    ensures t <= cutoff ==> Picks(times + [t], cutoff, kept, pos)
  {
  }

  /** Filtering keeps exactly the attempts after the cutoff, each once and in order. */
  lemma {:induction false} AfterPicks(times: seq<int>, cutoff: int) returns (pos: seq<nat>)
    ensures Picks(times, cutoff, After(times, cutoff), pos)
  {
    if times == [] {
      pos := [];
    } else {
      var (front, t) := (times[..|times| - 1], times[|times| - 1]);
      pos := AfterPicks(front, cutoff);
      PicksOneMore(front, cutoff, After(front, cutoff), pos, t);
      assert times == front + [t];
      if t > cutoff {
        pos := pos + [|front|];
      }
    }
  }

  lemma {:induction false} AfterCounts(times: seq<int>, cutoff: int)
    ensures |After(times, cutoff)| == |set i | 0 <= i < |times| && times[i] > cutoff|
  {
    var all := set i | 0 <= i < |times| && times[i] > cutoff;
    if times == [] {
      assert all == {};
    } else {
      var last := |times| - 1;
      var front := set i | 0 <= i < last && times[..last][i] > cutoff;
      AfterCounts(times[..last], cutoff);
      assert all == if times[last] > cutoff then front + {last} else front;
    }
  }

  lemma SomeAreAfter(times: seq<int>, cutoff: int)
    ensures After(times, cutoff) != [] <==> exists i :: 0 <= i < |times| && times[i] > cutoff
  {
    var pos := AfterPicks(times, cutoff);
    if pos != [] {
      assert pos[0] in pos;
    }
  }

  function Live(cfg: Config, m: Attempts, ip: string, now: int): seq<int> {
    After(Of(m, ip), now - cfg.window)
  }

  /** The clock readings of one cleanup pass: one per tracked address, from `start` on. */
  datatype Readings = Readings(start: int, perKey: map<string, int>) {
    function At(ip: string): int {
      if ip in perKey then perKey[ip] else start
    }

    ghost predicate Within(end: int) {
      start <= end && forall ip :: ip in perKey ==> start <= perKey[ip] <= end
    }
  }

  // ----- The limiter's own state -----

  function AfterAllow(cfg: Config, m: Attempts, ip: string, now: int): Attempts {
    m[ip := Live(cfg, m, ip, now)]
  }

  function Cleaned(cfg: Config, m: Attempts, r: Readings): Attempts {
    map ip | ip in m && Live(cfg, m, ip, r.At(ip)) != [] :: m[ip]
  }

  lemma CleanedExactly(cfg: Config, m: Attempts, r: Readings)
    ensures forall ip :: ip in Cleaned(cfg, m, r) <==>
              ip in m && exists i :: 0 <= i < |m[ip]| && m[ip][i] > r.At(ip) - cfg.window
  {
    forall ip | ip in m {
      SomeAreAfter(m[ip], r.At(ip) - cfg.window);
    }
  }

  /** The map after a cleanup that has yet to visit `left`. */
  function PartlyCleaned(cfg: Config, m: Attempts, r: Readings, left: set<string>): Attempts {
    map ip | ip in m && (ip in left || Live(cfg, m, ip, r.At(ip)) != []) :: m[ip]
  }

  lemma CleanedOneMore(cfg: Config, m: Attempts, r: Readings, left: set<string>, ip: string, t: int)
    requires ip in left && left <= m.Keys && ip !in r.perKey
    ensures var before := PartlyCleaned(cfg, m, r, left);
            && ip in before && before[ip] == m[ip]
            && PartlyCleaned(cfg, m, r.(perKey := r.perKey[ip := t]), left - {ip})
               == if Live(cfg, m, ip, t) != [] then before else before - {ip}
  {
    var r' := r.(perKey := r.perKey[ip := t]);
    assert r'.At(ip) == t && forall other :: other != ip ==> r'.At(other) == r.At(other);
  }

  lemma OverwriteTwice(m: Attempts, ip: string, x: seq<int>, y: seq<int>)
    ensures m[ip := x][ip := y] == m[ip := y]
  {
  }

  /** The map as RecordFailure finds it after making room, if it had to. */
  function Roomy(cfg: Config, m: Attempts, r: Readings): Attempts {
    if |m| >= cfg.maxKeys then Cleaned(cfg, m, r) else m
  }

  predicate Dropped(cfg: Config, m: Attempts, ip: string, r: Readings) {
    ip !in Roomy(cfg, m, r) && |Roomy(cfg, m, r)| >= cfg.maxKeys
  }

  function AfterFailure(cfg: Config, m: Attempts, ip: string, r: Readings, pruned: int, stamped: int): Attempts {
    var kept := Roomy(cfg, m, r);
    if Dropped(cfg, m, ip, r) then kept else kept[ip := Live(cfg, kept, ip, pruned) + [stamped]]
  }

  // ----- The class -----

  /** A clock that never runs backwards. */
  class Clock {
    var now: int

    constructor (now: int)
      ensures this.now == now
    {
      this.now := now;
    }

    method Read() returns (t: int)
      modifies this
      ensures old(now) <= t == now
    {
      assert now <= now;
      t :| now <= t;
      now := t;
    }
  }

  const DEFAULT_CONFIG := Config(5, 60_000_000_000, 10_000)

  class LoginLimiter {
    const cfg: Config
    const clock: Clock
    var attempts: Attempts

    constructor (clock: Clock)
      ensures cfg == Config(5, 60 * 1_000_000_000, 10_000) && this.clock == clock && attempts == map[]
    {
      cfg := DEFAULT_CONFIG;
      this.clock := clock;
      attempts := map[];
    }

    method RecentLocked(ip: string) returns (kept: seq<int>, ghost t: int)
      modifies this, clock
      ensures old(clock.now) <= t <= clock.now
      ensures kept == Live(cfg, old(attempts), ip, t)
      ensures attempts == AfterAllow(cfg, old(attempts), ip, t)
    {
      var now := clock.Read();
      t := now;
      var cutoff := now - cfg.window;
      var times := Of(attempts, ip);
      kept := [];
      for i := 0 to |times|
        invariant kept == After(times[..i], cutoff)
      {
        assert times[..i + 1][..i] == times[..i];
        if times[i] > cutoff {
          kept := kept + [times[i]];
        }
      }
      assert times[..|times|] == times;
      attempts := attempts[ip := kept];
    }

    method Allow(ip: string) returns (allowed: bool, ghost t: int)
      modifies this, clock
      ensures old(clock.now) <= t <= clock.now
      ensures allowed <==> |Live(cfg, old(attempts), ip, t)| < cfg.maxAttempts
      ensures var times := Of(old(attempts), ip);
              allowed <==> |set i | 0 <= i < |times| && times[i] > t - cfg.window| < cfg.maxAttempts
      ensures attempts == AfterAllow(cfg, old(attempts), ip, t)
    {
      var kept;
      ghost var times := Of(attempts, ip);
      kept, t := RecentLocked(ip);
      AfterCounts(times, t - cfg.window);
      allowed := |kept| < cfg.maxAttempts;
    }

    static method AnyAfter(times: seq<int>, cutoff: int) returns (keep: bool)
      ensures keep <==> After(times, cutoff) != []
    {
      keep := false;
      for i := 0 to |times|
        invariant !keep && After(times[..i], cutoff) == []
      {
        assert times[..i + 1][..i] == times[..i];
        if times[i] > cutoff {
          SomeAreAfter(times, cutoff);
          return true;
        }
      }
      assert times[..|times|] == times;
    }

    /** Go visits the keys in no particular order and reads the clock again for each. */
    method CleanupLocked() returns (ghost r: Readings)
      modifies this, clock
      ensures r.start == old(clock.now) && r.Within(clock.now)
      ensures attempts == Cleaned(cfg, old(attempts), r)
      ensures forall ip :: ip in attempts <==>
                && ip in old(attempts)
                && exists i :: 0 <= i < |old(attempts)[ip]| && old(attempts)[ip][i] > r.At(ip) - cfg.window
      ensures forall ip :: ip in attempts ==> attempts[ip] == old(attempts)[ip]
    {
      ghost var start := attempts;
      r := Readings(clock.now, map[]);
      var keys := attempts.Keys;
      while keys != {}
        invariant keys <= start.Keys
        invariant r.start == old(clock.now) && r.Within(clock.now)
        invariant r.perKey.Keys == start.Keys - keys
        invariant attempts == PartlyCleaned(cfg, start, r, keys)
        decreases keys
      {
        var ip :| ip in keys;
        var times := attempts[ip];
        var t := clock.Read();
        var keep := AnyAfter(times, t - cfg.window);
        if !keep {
          attempts := attempts - {ip};
        }
        CleanedOneMore(cfg, start, r, keys, ip, t);
        keys := keys - {ip};
        r := r.(perKey := r.perKey[ip := t]);
      }
      assert PartlyCleaned(cfg, start, r, {}) == Cleaned(cfg, start, r);
      CleanedExactly(cfg, start, r);
    }

    method RecordFailure(ip: string) returns (ghost r: Readings, ghost pruned: int, ghost stamped: int)
      modifies this, clock
      ensures r.start == old(clock.now) && r.Within(pruned) && pruned <= stamped <= clock.now
      ensures attempts == AfterFailure(cfg, old(attempts), ip, r, pruned, stamped)
    {
      ghost var start := attempts;
      r := Readings(clock.now, map[]);
      if |attempts| >= cfg.maxKeys {
        r := CleanupLocked();
      }
      ghost var roomy := attempts;
      assert roomy == Roomy(cfg, start, r);
      pruned, stamped := clock.now, clock.now;
      if ip !in attempts && |attempts| >= cfg.maxKeys {
        return;
      }
      var kept;
      kept, pruned := RecentLocked(ip);
      var t := clock.Read();
      stamped := t;
      attempts := attempts[ip := kept + [t]];
      OverwriteTwice(roomy, ip, kept, kept + [t]);
    }

    method RecordSuccess(ip: string)
      modifies this`attempts
      ensures attempts == old(attempts) - {ip}
    {
      attempts := attempts - {ip};
    }

    method Cleanup() returns (ghost r: Readings)
      modifies this, clock
      ensures r.start == old(clock.now) && r.Within(clock.now)
      ensures attempts == Cleaned(cfg, old(attempts), r)
      ensures forall ip :: ip in attempts <==>
                && ip in old(attempts)
                && exists i :: 0 <= i < |old(attempts)[ip]| && old(attempts)[ip][i] > r.At(ip) - cfg.window
      ensures forall ip :: ip in attempts ==> attempts[ip] == old(attempts)[ip]
    {
      r := CleanupLocked();
    }
  }

  // ----- Filtering -----

  /** Filtering by an earlier cutoff first makes no difference. */
  lemma {:induction false} AfterAfter(times: seq<int>, earlier: int, cutoff: int)
    requires earlier <= cutoff
    ensures After(After(times, earlier), cutoff) == After(times, cutoff)
    ensures |After(times, cutoff)| <= |After(times, earlier)|
  {
    if times != [] {
      var (front, last) := (times[..|times| - 1], times[|times| - 1]);
      AfterAfter(front, earlier, cutoff);
      var kept := After(times, earlier);
      if last > earlier {
        assert kept == After(front, earlier) + [last];
        assert kept[..|kept| - 1] == After(front, earlier);
      } else {
        assert kept == After(front, earlier);
        assert After(times, cutoff) == After(front, cutoff);
      }
    }
  }

  lemma AfterAppend(times: seq<int>, t: int, cutoff: int)
    ensures After(times + [t], cutoff) == After(times, cutoff) + if t > cutoff then [t] else []
  {
    assert (times + [t])[..|times|] == times;
  }

  // ----- The log it stands for -----

  /** The pruned map and the full log agree, for every address, on what is inside the window now;
      hence also at every later time. */
  ghost predicate Represents(cfg: Config, m: Attempts, log: Attempts, now: int) {
    forall ip :: Live(cfg, m, ip, now) == Live(cfg, log, ip, now)
  }

  lemma LiveLater(cfg: Config, m: Attempts, log: Attempts, ip: string, now: int, later: int)
    requires Represents(cfg, m, log, now) && now <= later
    ensures Live(cfg, m, ip, later) == Live(cfg, log, ip, later)
  {
    assert Live(cfg, m, ip, now) == Live(cfg, log, ip, now);
    AfterAfter(Of(m, ip), now - cfg.window, later - cfg.window);
    AfterAfter(Of(log, ip), now - cfg.window, later - cfg.window);
  }

  lemma RepresentsLater(cfg: Config, m: Attempts, log: Attempts, now: int, later: int)
    requires Represents(cfg, m, log, now) && now <= later
    ensures Represents(cfg, m, log, later)
  {
    forall ip ensures Live(cfg, m, ip, later) == Live(cfg, log, ip, later) {
      LiveLater(cfg, m, log, ip, now, later);
    }
  }

  /** The addresses with an attempt inside the window, each at its own reading. */
  function LiveKeys(cfg: Config, log: Attempts, r: Readings): set<string> {
    set ip | ip in log && Live(cfg, log, ip, r.At(ip)) != []
  }

  predicate LogDrops(cfg: Config, log: Attempts, ip: string, r: Readings) {
    Live(cfg, log, ip, r.At(ip)) == [] && |LiveKeys(cfg, log, r)| >= cfg.maxKeys
  }

  lemma CleanedKeysAreLive(cfg: Config, m: Attempts, log: Attempts, r: Readings, end: int)
    requires Represents(cfg, m, log, r.start) && r.Within(end)
    ensures Cleaned(cfg, m, r).Keys == LiveKeys(cfg, log, r)
  {
    forall ip
      ensures ip in Cleaned(cfg, m, r) <==> ip in LiveKeys(cfg, log, r)
    {
      LiveLater(cfg, m, log, ip, r.start, r.At(ip));
    }
  }

  /** A failure is dropped exactly when its address has no live attempt and the live addresses
      already number `maxKeys`. */
  lemma DropDecision(cfg: Config, m: Attempts, log: Attempts, ip: string, r: Readings, end: int)
    requires Represents(cfg, m, log, r.start) && r.Within(end)
    ensures Dropped(cfg, m, ip, r) <==> LogDrops(cfg, log, ip, r)
  {
    CleanedKeysAreLive(cfg, m, log, r, end);
    LiveLater(cfg, m, log, ip, r.start, r.At(ip));
    var cleaned := Cleaned(cfg, m, r);
    assert |cleaned| == |cleaned.Keys| && |m| == |m.Keys|;
    SubsetSize(cleaned.Keys, m.Keys);
    if |m| >= cfg.maxKeys {
      assert ip in cleaned <==> Live(cfg, log, ip, r.At(ip)) != [];
    }
  }

  lemma CleanedLive(cfg: Config, m: Attempts, r: Readings, end: int, ip: string)
    requires r.Within(end)
    ensures Live(cfg, Cleaned(cfg, m, r), ip, end) == Live(cfg, m, ip, end)
  {
    if ip in m && ip !in Cleaned(cfg, m, r) {
      var earlier := r.At(ip) - cfg.window;
      AfterAfter(m[ip], earlier, end - cfg.window);
      assert After(m[ip], earlier) == [];
    }
  }

  lemma CleanedRepresents(cfg: Config, m: Attempts, log: Attempts, r: Readings, end: int)
    requires Represents(cfg, m, log, r.start) && r.Within(end)
    ensures Represents(cfg, Cleaned(cfg, m, r), log, end)
  {
    forall ip
      ensures Live(cfg, Cleaned(cfg, m, r), ip, end) == Live(cfg, log, ip, end)
    {
      LiveLater(cfg, m, log, ip, r.start, end);
      CleanedLive(cfg, m, r, end, ip);
    }
  }

  lemma LiveNarrows(cfg: Config, log: Attempts, ip: string, now: int, later: int)
    requires now <= later
    ensures Live(cfg, log, ip, now) == [] ==> Live(cfg, log, ip, later) == []
  {
    AfterAfter(Of(log, ip), now - cfg.window, later - cfg.window);
  }

  lemma LiveKeysNarrow(cfg: Config, log: Attempts, r: Readings, later: Readings)
    requires forall ip :: r.At(ip) <= later.At(ip)
    ensures LiveKeys(cfg, log, later) <= LiveKeys(cfg, log, r)
    ensures |LiveKeys(cfg, log, later)| <= |LiveKeys(cfg, log, r)|
  {
    forall ip | ip in LiveKeys(cfg, log, later)
      ensures ip in LiveKeys(cfg, log, r)
    {
      AfterAfter(log[ip], r.At(ip) - cfg.window, later.At(ip) - cfg.window);
    }
    SubsetSize(LiveKeys(cfg, log, later), LiveKeys(cfg, log, r));
  }

  /** Whatever the single readings were: an address idle from the start is dropped when enough
      addresses are still live at the end, and only ever when enough were live at the start. */
  lemma DropBracket(cfg: Config, log: Attempts, ip: string, r: Readings, end: int)
    requires r.Within(end)
    ensures Live(cfg, log, ip, r.start) == [] && |LiveKeys(cfg, log, Readings(end, map[]))| >= cfg.maxKeys
            ==> LogDrops(cfg, log, ip, r)
    ensures LogDrops(cfg, log, ip, r)
            ==> Live(cfg, log, ip, end) == [] && |LiveKeys(cfg, log, Readings(r.start, map[]))| >= cfg.maxKeys
  {
    var (first, last) := (Readings(r.start, map[]), Readings(end, map[]));
    LiveKeysNarrow(cfg, log, first, r);
    LiveKeysNarrow(cfg, log, r, last);
    LiveNarrows(cfg, log, ip, r.start, r.At(ip));
    LiveNarrows(cfg, log, ip, r.At(ip), end);
  }

  // ----- Traces -----

  datatype Call =
    | Allow(ip: string, at: int)
    | Failure(ip: string, r: Readings, pruned: int, stamped: int)
    | Success(ip: string)
    | Cleanup(r: Readings, end: int)

  /** What a caller or an operator can tell: the answer of Allow, and whether a failure counted. */
  datatype Reply = Answer(allowed: bool) | Counted(counted: bool)

  /** The clock readings of a trace never run backwards. */
  ghost predicate Timely(now: int, calls: seq<Call>)
    decreases |calls|
  {
    calls == [] ||
    match calls[0]
    case Allow(_, at) => now <= at && Timely(at, calls[1..])
    case Failure(_, r, pruned, stamped) =>
      now <= r.start && r.Within(pruned) && pruned <= stamped && Timely(stamped, calls[1..])
    case Success(_) => Timely(now, calls[1..])
    case Cleanup(r, end) => now <= r.start && r.Within(end) && Timely(end, calls[1..])
  }

  function LimiterReplies(cfg: Config, m: Attempts, calls: seq<Call>): seq<Reply>
    decreases |calls|
  {
    if calls == [] then []
    else match calls[0]
      case Allow(ip, at) =>
        [Answer(|Live(cfg, m, ip, at)| < cfg.maxAttempts)]
        + LimiterReplies(cfg, AfterAllow(cfg, m, ip, at), calls[1..])
      case Failure(ip, r, pruned, stamped) =>
        [Counted(!Dropped(cfg, m, ip, r))]
        + LimiterReplies(cfg, AfterFailure(cfg, m, ip, r, pruned, stamped), calls[1..])
      case Success(ip) => LimiterReplies(cfg, m - {ip}, calls[1..])
      case Cleanup(r, _) => LimiterReplies(cfg, Cleaned(cfg, m, r), calls[1..])
  }

  function LogAfterFailure(cfg: Config, log: Attempts, ip: string, r: Readings, stamped: int): Attempts {
    if LogDrops(cfg, log, ip, r) then log else log[ip := Of(log, ip) + [stamped]]
  }

  /** Allow answers by the attempts inside the window and prunes its address. */
  lemma AllowReply(cfg: Config, m: Attempts, ip: string, at: int, rest: seq<Call>)
    ensures var times := Of(m, ip);
            LimiterReplies(cfg, m, [Allow(ip, at)] + rest)
            == [Answer(|set i | 0 <= i < |times| && times[i] > at - cfg.window| < cfg.maxAttempts)]
               + LimiterReplies(cfg, m[ip := After(times, at - cfg.window)], rest)
  {
    assert ([Allow(ip, at)] + rest)[1..] == rest;
    AfterCounts(Of(m, ip), at - cfg.window);
  }

  /** A failure counts exactly if its address is tracked afterwards. */
  lemma FailureReply(cfg: Config, m: Attempts, ip: string, r: Readings, pruned: int, stamped: int, rest: seq<Call>)
    ensures var m' := AfterFailure(cfg, m, ip, r, pruned, stamped);
            LimiterReplies(cfg, m, [Failure(ip, r, pruned, stamped)] + rest)
            == [Counted(ip in m')] + LimiterReplies(cfg, m', rest)
  {
    assert ([Failure(ip, r, pruned, stamped)] + rest)[1..] == rest;
  }

  /** A success has no reply and forgets its address alone. */
  lemma SuccessReply(cfg: Config, m: Attempts, ip: string, rest: seq<Call>)
    ensures LimiterReplies(cfg, m, [Success(ip)] + rest)
            == LimiterReplies(cfg, map other | other in m && other != ip :: m[other], rest)
  {
    assert ([Success(ip)] + rest)[1..] == rest;
    assert m - {ip} == map other | other in m && other != ip :: m[other];
  }

  /** The specification: every counted failure since the last success is kept for ever. */
  function LogReplies(cfg: Config, log: Attempts, calls: seq<Call>): seq<Reply>
    decreases |calls|
  {
    if calls == [] then []
    else match calls[0]
      case Allow(ip, at) =>
        [Answer(|Live(cfg, log, ip, at)| < cfg.maxAttempts)] + LogReplies(cfg, log, calls[1..])
      case Failure(ip, r, _, stamped) =>
        [Counted(!LogDrops(cfg, log, ip, r))]
        + LogReplies(cfg, LogAfterFailure(cfg, log, ip, r, stamped), calls[1..])
      case Success(ip) => LogReplies(cfg, log - {ip}, calls[1..])
      case Cleanup(_, _) => LogReplies(cfg, log, calls[1..])
  }

  lemma UpdatedLive(cfg: Config, m: Attempts, ip: string, times: seq<int>, other: string, now: int)
    ensures Live(cfg, m[ip := times], other, now)
            == if other == ip then After(times, now - cfg.window) else Live(cfg, m, other, now)
  {
  }

  lemma AllowKeepsLive(cfg: Config, m: Attempts, ip: string, at: int, other: string)
    ensures Live(cfg, AfterAllow(cfg, m, ip, at), other, at) == Live(cfg, m, other, at)
  {
    AfterAfter(Of(m, ip), at - cfg.window, at - cfg.window);
    UpdatedLive(cfg, m, ip, Live(cfg, m, ip, at), other, at);
  }

  lemma AllowRepresents(cfg: Config, m: Attempts, log: Attempts, ip: string, now: int, at: int)
    requires Represents(cfg, m, log, now) && now <= at
    ensures Represents(cfg, AfterAllow(cfg, m, ip, at), log, at)
  {
    var m' := AfterAllow(cfg, m, ip, at);
    forall other
      ensures Live(cfg, m', other, at) == Live(cfg, log, other, at)
    {
      LiveLater(cfg, m, log, other, now, at);
      AllowKeepsLive(cfg, m, ip, at, other);
    }
  }

  lemma RoomyRepresents(cfg: Config, m: Attempts, log: Attempts, r: Readings, end: int)
    requires Represents(cfg, m, log, r.start) && r.Within(end)
    ensures Represents(cfg, Roomy(cfg, m, r), log, end)
  {
    CleanedRepresents(cfg, m, log, r, end);
    RepresentsLater(cfg, m, log, r.start, end);
  }

  lemma AppendAfter(kept: seq<int>, full: seq<int>, earlier: int, cutoff: int, t: int)
    requires earlier <= cutoff && After(kept, cutoff) == After(full, cutoff)
    ensures After(After(kept, earlier) + [t], cutoff) == After(full + [t], cutoff)
  {
    AfterAfter(kept, earlier, cutoff);
    AfterAppend(After(kept, earlier), t, cutoff);
    AfterAppend(full, t, cutoff);
  }

  lemma UpdatedRepresents(cfg: Config, m: Attempts, log: Attempts, ip: string, x: seq<int>, y: seq<int>, now: int)
    requires Represents(cfg, m, log, now) && After(x, now - cfg.window) == After(y, now - cfg.window)
    ensures Represents(cfg, m[ip := x], log[ip := y], now)
  {
    var (m', log') := (m[ip := x], log[ip := y]);
    forall other
      ensures Live(cfg, m', other, now) == Live(cfg, log', other, now)
    {
      assert Live(cfg, m, other, now) == Live(cfg, log, other, now);
      UpdatedLive(cfg, m, ip, x, other, now);
      UpdatedLive(cfg, log, ip, y, other, now);
    }
  }

  /** Appending one attempt to a pruned list and to the full list. */
  lemma AppendRepresents(cfg: Config, kept: Attempts, log: Attempts, ip: string, pruned: int, stamped: int)
    requires Represents(cfg, kept, log, pruned) && pruned <= stamped
    ensures Represents(cfg, kept[ip := Live(cfg, kept, ip, pruned) + [stamped]],
                       log[ip := Of(log, ip) + [stamped]], stamped)
  {
    RepresentsLater(cfg, kept, log, pruned, stamped);
    LiveLater(cfg, kept, log, ip, pruned, stamped);
    AppendAfter(Of(kept, ip), Of(log, ip), pruned - cfg.window, stamped - cfg.window, stamped);
    UpdatedRepresents(cfg, kept, log, ip, Live(cfg, kept, ip, pruned) + [stamped], Of(log, ip) + [stamped], stamped);
  }

  lemma FailureRepresents(cfg: Config, m: Attempts, log: Attempts, ip: string, r: Readings, pruned: int, stamped: int)
    requires Represents(cfg, m, log, r.start) && r.Within(pruned) && pruned <= stamped
    ensures Represents(cfg, AfterFailure(cfg, m, ip, r, pruned, stamped),
                       LogAfterFailure(cfg, log, ip, r, stamped), stamped)
  {
    DropDecision(cfg, m, log, ip, r, pruned);
    RoomyRepresents(cfg, m, log, r, pruned);
    if Dropped(cfg, m, ip, r) {
      RepresentsLater(cfg, Roomy(cfg, m, r), log, pruned, stamped);
    } else {
      AppendRepresents(cfg, Roomy(cfg, m, r), log, ip, pruned, stamped);
    }
  }

  /** For every trace on a nondecreasing clock, the limiter answers and drops as the log does. */
  lemma {:induction false} LimiterRefinesLog(cfg: Config, m: Attempts, log: Attempts, now: int, calls: seq<Call>)
    requires Represents(cfg, m, log, now) && Timely(now, calls)
    ensures LimiterReplies(cfg, m, calls) == LogReplies(cfg, log, calls)
    decreases |calls|
  {
    if calls != [] {
      match calls[0] {
        case Allow(ip, at) =>
          LiveLater(cfg, m, log, ip, now, at);
          AllowRepresents(cfg, m, log, ip, now, at);
          LimiterRefinesLog(cfg, AfterAllow(cfg, m, ip, at), log, at, calls[1..]);
        case Failure(ip, r, pruned, stamped) =>
          RepresentsLater(cfg, m, log, now, r.start);
          DropDecision(cfg, m, log, ip, r, pruned);
          FailureRepresents(cfg, m, log, ip, r, pruned, stamped);
          LimiterRefinesLog(cfg, AfterFailure(cfg, m, ip, r, pruned, stamped),
                            LogAfterFailure(cfg, log, ip, r, stamped), stamped, calls[1..]);
        case Success(ip) =>
          assert Represents(cfg, m - {ip}, log - {ip}, now) by {
            forall other ensures Live(cfg, m - {ip}, other, now) == Live(cfg, log - {ip}, other, now) {
              assert Live(cfg, m, other, now) == Live(cfg, log, other, now);
            }
          }
          LimiterRefinesLog(cfg, m - {ip}, log - {ip}, now, calls[1..]);
        case Cleanup(r, end) =>
          RepresentsLater(cfg, m, log, now, r.start);
          CleanedRepresents(cfg, m, log, r, end);
          LimiterRefinesLog(cfg, Cleaned(cfg, m, r), log, end, calls[1..]);
      }
    }
  }

  // ----- Cleanup cannot be observed -----

  function WithoutCleanups(calls: seq<Call>): seq<Call> {
    if calls == [] then []
    else (if calls[0].Cleanup? then [] else [calls[0]]) + WithoutCleanups(calls[1..])
  }

  lemma TimelyEarlier(earlier: int, now: int, calls: seq<Call>)
    requires earlier <= now && Timely(now, calls)
    ensures Timely(earlier, calls)
    decreases |calls|
  {
    if calls != [] && calls[0].Success? {
      TimelyEarlier(earlier, now, calls[1..]);
    }
  }

  lemma {:induction false} TimelyWithoutCleanups(now: int, calls: seq<Call>)
    requires Timely(now, calls)
    ensures Timely(now, WithoutCleanups(calls))
    decreases |calls|
  {
    if calls != [] {
      var rest := WithoutCleanups(calls[1..]);
      match calls[0] {
        case Allow(_, at) => TimelyWithoutCleanups(at, calls[1..]);
        case Failure(_, _, _, stamped) => TimelyWithoutCleanups(stamped, calls[1..]);
        case Success(_) => TimelyWithoutCleanups(now, calls[1..]);
        case Cleanup(r, end) =>
          TimelyWithoutCleanups(end, calls[1..]);
          TimelyEarlier(now, end, rest);
          assert WithoutCleanups(calls) == rest;
      }
      if !calls[0].Cleanup? {
        assert WithoutCleanups(calls)[1..] == rest;
      }
    }
  }

  lemma {:induction false} LogIgnoresCleanups(cfg: Config, log: Attempts, calls: seq<Call>)
    ensures LogReplies(cfg, log, calls) == LogReplies(cfg, log, WithoutCleanups(calls))
    decreases |calls|
  {
    if calls != [] {
      if calls[0].Cleanup? {
        assert WithoutCleanups(calls) == WithoutCleanups(calls[1..]);
      } else {
        assert WithoutCleanups(calls)[1..] == WithoutCleanups(calls[1..]);
      }
      match calls[0] {
        case Allow(_, _) => LogIgnoresCleanups(cfg, log, calls[1..]);
        case Failure(ip, r, _, stamped) =>
          LogIgnoresCleanups(cfg, LogAfterFailure(cfg, log, ip, r, stamped), calls[1..]);
        case Success(ip) => LogIgnoresCleanups(cfg, log - {ip}, calls[1..]);
        case Cleanup(_, _) => LogIgnoresCleanups(cfg, log, calls[1..]);
      }
    }
  }

  /** Dropping every Cleanup from a trace changes no answer and no drop. */
  lemma CleanupIsUnobservable(cfg: Config, m: Attempts, now: int, calls: seq<Call>)
    requires Timely(now, calls)
    ensures LimiterReplies(cfg, m, calls) == LimiterReplies(cfg, m, WithoutCleanups(calls))
  {
    TimelyWithoutCleanups(now, calls);
    LimiterRefinesLog(cfg, m, m, now, calls);
    LimiterRefinesLog(cfg, m, m, now, WithoutCleanups(calls));
    LogIgnoresCleanups(cfg, m, calls);
  }
}
