/** Passive health checking: one counter machine per target, driven by reports. */
module Health {
  import opened Wrappers

  datatype Status = Healthy | Unhealthy | DnsError

  datatype TargetHealth = TargetHealth(status: Status, successes: int, tcpFailures: int, timeouts: int, httpFailures: int)

  const FRESH := TargetHealth(Healthy, 0, 0, 0, 0)

  datatype Config = Config(healthySuccesses: int, unhealthyTcpFailures: int, unhealthyTimeouts: int,
                           unhealthyHttpFailures: int, healthyStatuses: seq<int>, unhealthyStatuses: seq<int>)

  datatype Report = Success | HttpStatus(code: int) | TcpFailure | Timeout

  /** The closure that a report applies to the target's counters. */
  function Apply(cfg: Config, h: TargetHealth, r: Report): TargetHealth {
    match r
    case Success =>
      var h' := h.(successes := h.successes + 1, tcpFailures := 0, timeouts := 0, httpFailures := 0);
      Recover(cfg, h')
    case HttpStatus(code) =>
      if code in cfg.unhealthyStatuses then
        var h' := h.(httpFailures := h.httpFailures + 1, successes := 0);
        Trip(h', cfg.unhealthyHttpFailures, h'.httpFailures)
      else if code in cfg.healthyStatuses then
        Recover(cfg, h.(successes := h.successes + 1, httpFailures := 0))
      else h
    case TcpFailure =>
      var h' := h.(tcpFailures := h.tcpFailures + 1, successes := 0);
      Trip(h', cfg.unhealthyTcpFailures, h'.tcpFailures)
    case Timeout =>
      var h' := h.(timeouts := h.timeouts + 1, successes := 0);
      Trip(h', cfg.unhealthyTimeouts, h'.timeouts)
  }

  function Recover(cfg: Config, h: TargetHealth): TargetHealth {
    if cfg.healthySuccesses > 0 && h.successes >= cfg.healthySuccesses then h.(status := Healthy) else h
  }

  function Trip(h: TargetHealth, threshold: int, count: int): TargetHealth {
    if threshold > 0 && count >= threshold then h.(status := Unhealthy) else h
  }

  // ---------------------------------------------------------------- runs

  /** The counters of a target after a run of reports, oldest first. */
  function After(cfg: Config, run: seq<Report>): TargetHealth {
    if run == [] then FRESH else Apply(cfg, After(cfg, run[..|run| - 1]), run[|run| - 1])
  }

  predicate BadStatus(cfg: Config, r: Report) {
    r.HttpStatus? && r.code in cfg.unhealthyStatuses
  }

  predicate GoodStatus(cfg: Config, r: Report) {
    r.HttpStatus? && r.code !in cfg.unhealthyStatuses && r.code in cfg.healthyStatuses
  }

  predicate Good(cfg: Config, r: Report) {
    r.Success? || GoodStatus(cfg, r)
  }

  predicate Bad(cfg: Config, r: Report) {
    r.TcpFailure? || r.Timeout? || BadStatus(cfg, r)
  }

  /** How many counted reports there are since the last resetting one. */
  function Since(counted: Report -> bool, reset: Report -> bool, run: seq<Report>): nat {
    if run == [] then 0
    else
      var r := run[|run| - 1];
      if reset(r) then 0
      else (if counted(r) then 1 else 0) + Since(counted, reset, run[..|run| - 1])
  }

  function SuccessStreak(cfg: Config, run: seq<Report>): nat {
    Since(r => Good(cfg, r), r => Bad(cfg, r), run)
  }

  function HttpFailureStreak(cfg: Config, run: seq<Report>): nat {
    Since(r => BadStatus(cfg, r), r => Good(cfg, r), run)
  }

  /** The other two counters are cleared by report_success alone. */
  function TcpCount(run: seq<Report>): nat {
    Since((r: Report) => r.TcpFailure?, (r: Report) => r.Success?, run)
  }

  function TimeoutCount(run: seq<Report>): nat {
    Since((r: Report) => r.Timeout?, (r: Report) => r.Success?, run)
  }

  /** What every counter holds after every run. */
  lemma {:induction false} CountersAfter(cfg: Config, run: seq<Report>)
    ensures After(cfg, run).successes == SuccessStreak(cfg, run)
    ensures After(cfg, run).httpFailures == HttpFailureStreak(cfg, run)
    ensures After(cfg, run).tcpFailures == TcpCount(run)
    ensures After(cfg, run).timeouts == TimeoutCount(run)
  {
    if run != [] {
      CountersAfter(cfg, run[..|run| - 1]);
    }
  }

  /** While a target is unhealthy its success streak is short of the threshold. */
  lemma {:induction false} UnhealthyIsShort(cfg: Config, run: seq<Report>)
    ensures After(cfg, run).status != DnsError
    ensures After(cfg, run).status == Unhealthy && cfg.healthySuccesses > 0 ==>
              SuccessStreak(cfg, run) < cfg.healthySuccesses
  {
    CountersAfter(cfg, run);
    if run != [] {
      UnhealthyIsShort(cfg, run[..|run| - 1]);
      CountersAfter(cfg, run[..|run| - 1]);
    }
  }

  /** Exactly when a report brings a target back: it is the healthy_successes-th success since
      the last failure of any kind. */
  lemma RecoversExactlyWhen(cfg: Config, run: seq<Report>, r: Report)
    requires After(cfg, run).status == Unhealthy
    ensures After(cfg, run + [r]).status == Healthy <==>
              cfg.healthySuccesses > 0 && Good(cfg, r) && SuccessStreak(cfg, run + [r]) == cfg.healthySuccesses
  {
    assert (run + [r])[..|run|] == run;
    UnhealthyIsShort(cfg, run);
    CountersAfter(cfg, run);
    CountersAfter(cfg, run + [r]);
  }

  /** Exactly when a report takes a healthy target out. */
  lemma TripsExactlyWhen(cfg: Config, run: seq<Report>, r: Report)
    requires After(cfg, run).status == Healthy
    ensures After(cfg, run + [r]).status == Unhealthy <==>
              || (BadStatus(cfg, r) && 0 < cfg.unhealthyHttpFailures <= HttpFailureStreak(cfg, run + [r]))
              || (r.TcpFailure? && 0 < cfg.unhealthyTcpFailures <= TcpCount(run + [r]))
              || (r.Timeout? && 0 < cfg.unhealthyTimeouts <= TimeoutCount(run + [r]))
  {
    assert (run + [r])[..|run|] == run;
    CountersAfter(cfg, run);
    CountersAfter(cfg, run + [r]);
  }

  /** With the success threshold at 0 (its default) an unhealthy target stays out for good. */
  lemma {:induction false} NeverRecovers(cfg: Config, run: seq<Report>, more: seq<Report>)
    requires cfg.healthySuccesses <= 0 && After(cfg, run).status == Unhealthy
    ensures After(cfg, run + more).status == Unhealthy
    decreases |more|
  {
    if more == [] {
      assert run + more == run;
    } else {
      NeverRecovers(cfg, run, more[..|more| - 1]);
      assert (run + more)[..|run + more| - 1] == run + more[..|more| - 1];
    }
  }

  // ---------------------------------------------------------------- where a run ends

  /** The i-th report is a failure whose own count reaches its non-zero threshold. */
  ghost predicate TripsAt(cfg: Config, run: seq<Report>, i: nat) {
    && i < |run|
    && (|| (BadStatus(cfg, run[i]) && 0 < cfg.unhealthyHttpFailures <= HttpFailureStreak(cfg, run[..i + 1]))
        || (run[i].TcpFailure? && 0 < cfg.unhealthyTcpFailures <= TcpCount(run[..i + 1]))
        || (run[i].Timeout? && 0 < cfg.unhealthyTimeouts <= TimeoutCount(run[..i + 1])))
  }

  /** After the j-th report the successes since the last failure reach the threshold. */
  ghost predicate BackAt(cfg: Config, run: seq<Report>, j: nat) {
    j < |run| && 0 < cfg.healthySuccesses <= SuccessStreak(cfg, run[..j + 1])
  }

  ghost predicate StaysOut(cfg: Config, run: seq<Report>, i: nat) {
    forall j :: i < j < |run| ==> !BackAt(cfg, run, j)
  }

  /** Some report trips, and none behind it brings the target back. */
  ghost predicate Out(cfg: Config, run: seq<Report>) {
    exists i :: TripsAt(cfg, run, i) && StaysOut(cfg, run, i)
  }

  /** Where every run of reports, from registration on, leaves a target. */
  lemma {:induction false} StatusAfter(cfg: Config, run: seq<Report>)
    ensures After(cfg, run).status == if Out(cfg, run) then Unhealthy else Healthy
  {
    if run != [] {
      var front := run[..|run| - 1];
      StatusAfter(cfg, front);
      LastReport(cfg, run, front);
      OutOneMore(cfg, run, front);
    }
  }

  /** The last report decides if it trips or brings back; otherwise the status is kept. */
  lemma LastReport(cfg: Config, run: seq<Report>, front: seq<Report>)
    requires run != [] && front == run[..|run| - 1] && After(cfg, front).status != DnsError
    ensures After(cfg, run).status == if TripsAt(cfg, run, |run| - 1) then Unhealthy
                                      else if BackAt(cfg, run, |run| - 1) then Healthy
                                      else After(cfg, front).status
  {
    assert run[..|run|] == run;
    CountersAfter(cfg, run);
    CountersAfter(cfg, front);
    UnhealthyIsShort(cfg, front);
    UnhealthyIsShort(cfg, run);
  }

  lemma SamePrefix(cfg: Config, run: seq<Report>, front: seq<Report>, i: nat)
    requires run != [] && front == run[..|run| - 1] && i < |front|
    ensures TripsAt(cfg, run, i) <==> TripsAt(cfg, front, i)
    ensures BackAt(cfg, run, i) <==> BackAt(cfg, front, i)
  {
    assert run[..i + 1] == front[..i + 1];
  }

  lemma OutOneMore(cfg: Config, run: seq<Report>, front: seq<Report>)
    requires run != [] && front == run[..|run| - 1]
    ensures Out(cfg, run) <==> TripsAt(cfg, run, |run| - 1) || (Out(cfg, front) && !BackAt(cfg, run, |run| - 1))
  {
    var n := |run| - 1;
    forall i: nat | i < n
      ensures TripsAt(cfg, run, i) <==> TripsAt(cfg, front, i)
      ensures StaysOut(cfg, run, i) <==> StaysOut(cfg, front, i) && !BackAt(cfg, run, n)
    {
      SamePrefix(cfg, run, front, i);
      forall j | i < j < n
        ensures BackAt(cfg, run, j) <==> BackAt(cfg, front, j)
      {
        SamePrefix(cfg, run, front, j);
      }
    }
    if TripsAt(cfg, run, n) {
      assert StaysOut(cfg, run, n);
    }
  }

  // ---------------------------------------------------------------- two counters are not streaks

  /** A report of one of the two kinds that only report_success clears. */
  predicate Counted(timeouts: bool, r: Report) {
    if timeouts then r.Timeout? else r.TcpFailure?
  }

  function CountedBy(timeouts: bool): Report -> bool {
    (r: Report) => Counted(timeouts, r)
  }

  /** What tcp_failures (or timeouts) holds. */
  function Count(timeouts: bool, run: seq<Report>): nat {
    Since(CountedBy(timeouts), (r: Report) => r.Success?, run)
  }

  /** The documented meaning: consecutive failures, cut by any success. */
  function Streak(timeouts: bool, cfg: Config, run: seq<Report>): nat {
    Since(CountedBy(timeouts), r => Good(cfg, r), run)
  }

  lemma {:induction false} CountIsCounter(run: seq<Report>)
    ensures Count(false, run) == TcpCount(run) && Count(true, run) == TimeoutCount(run)
  {
    if run != [] {
      CountIsCounter(run[..|run| - 1]);
    }
  }

  /** A failure, later a healthy HTTP status, and no report_success after the failure. */
  ghost predicate Uncut(timeouts: bool, cfg: Config, run: seq<Report>, i: nat, j: nat) {
    && i < j < |run| && Counted(timeouts, run[i]) && GoodStatus(cfg, run[j])
    && forall k :: i < k < |run| ==> !run[k].Success?
  }

  ghost predicate Pending(timeouts: bool, run: seq<Report>, i: nat) {
    i < |run| && Counted(timeouts, run[i]) && forall k :: i < k < |run| ==> !run[k].Success?
  }

  lemma {:induction false} CountPositive(timeouts: bool, run: seq<Report>)
    ensures Count(timeouts, run) > 0 <==> exists i :: Pending(timeouts, run, i)
  {
    if run != [] {
      var front, n := run[..|run| - 1], |run| - 1;
      CountPositive(timeouts, front);
      if Counted(timeouts, run[n]) {
        assert Pending(timeouts, run, n);
      } else if !run[n].Success? {
        if Count(timeouts, front) > 0 {
          var i :| Pending(timeouts, front, i);
          assert Pending(timeouts, run, i);
        }
        if i :| Pending(timeouts, run, i) {
          assert Pending(timeouts, front, i);
        }
      }
    }
  }

  /** The counter is the documented streak exactly when no healthy HTTP status follows a failure that
      no report_success has cleared. */
  lemma {:induction false} CountIsStreakExactlyWhen(timeouts: bool, cfg: Config, run: seq<Report>)
    ensures Streak(timeouts, cfg, run) <= Count(timeouts, run)
    ensures Count(timeouts, run) == Streak(timeouts, cfg, run) <==> !exists i, j :: Uncut(timeouts, cfg, run, i, j)
  {
    if run != [] {
      var front, n := run[..|run| - 1], |run| - 1;
      CountIsStreakExactlyWhen(timeouts, cfg, front);
      if GoodStatus(cfg, run[n]) {
        CountPositive(timeouts, front);
        if Count(timeouts, front) > 0 {
          var i :| Pending(timeouts, front, i);
          assert Uncut(timeouts, cfg, run, i, n);
        }
        if i, j :| Uncut(timeouts, cfg, run, i, j) {
          assert Pending(timeouts, front, i);
        }
      } else if !run[n].Success? {
        if i, j :| Uncut(timeouts, cfg, run, i, j) {
          assert Uncut(timeouts, cfg, front, i, j);
        }
        if i, j :| Uncut(timeouts, cfg, front, i, j) {
          assert Uncut(timeouts, cfg, run, i, j);
        }
      }
    }
  }

  /** For the stored tcp_failures. */
  lemma TcpCountIsStreakExactlyWhen(cfg: Config, run: seq<Report>)
    ensures After(cfg, run).tcpFailures == Streak(false, cfg, run) <==> !exists i, j :: Uncut(false, cfg, run, i, j)
  {
    CountersAfter(cfg, run);
    CountIsCounter(run);
    CountIsStreakExactlyWhen(false, cfg, run);
  }

  /** For the stored timeouts. */
  lemma TimeoutCountIsStreakExactlyWhen(cfg: Config, run: seq<Report>)
    ensures After(cfg, run).timeouts == Streak(true, cfg, run) <==> !exists i, j :: Uncut(true, cfg, run, i, j)
  {
    CountersAfter(cfg, run);
    CountIsCounter(run);
    CountIsStreakExactlyWhen(true, cfg, run);
  }

  lemma OneMoreReport(timeouts: bool, cfg: Config, run: seq<Report>, r: Report)
    ensures Count(timeouts, run + [r]) ==
            if r.Success? then 0 else (if Counted(timeouts, r) then 1 else 0) + Count(timeouts, run)
    ensures Streak(timeouts, cfg, run + [r]) ==
            if Good(cfg, r) then 0 else (if Counted(timeouts, r) then 1 else 0) + Streak(timeouts, cfg, run)
  {
    assert (run + [r])[..|run|] == run;
  }

  /** Two failures of one kind with a healthy response between them trip a threshold of two. */
  lemma TripsAcrossSuccess(timeouts: bool, cfg: Config)
    requires (if timeouts then cfg.unhealthyTimeouts else cfg.unhealthyTcpFailures) == 2
    requires 200 in cfg.healthyStatuses && 200 !in cfg.unhealthyStatuses
    ensures var bad := if timeouts then Timeout else TcpFailure;
            var run := [bad, HttpStatus(200), bad];
            After(cfg, run).status == Unhealthy && Streak(timeouts, cfg, run) == 1 && Count(timeouts, run) == 2
  {
    var bad := if timeouts then Timeout else TcpFailure;
    var r0, r1, r2 := [bad], [bad, HttpStatus(200)], [bad, HttpStatus(200), bad];
    assert [] + [bad] == r0 && r0 + [HttpStatus(200)] == r1 && r1 + [bad] == r2;
    OneMoreReport(timeouts, cfg, [], bad);
    OneMoreReport(timeouts, cfg, r0, HttpStatus(200));
    OneMoreReport(timeouts, cfg, r1, bad);
    CountersAfter(cfg, r2);
    CountIsCounter(r2);
    AfterOneMore(cfg, r1, bad);
  }

  lemma AfterOneMore(cfg: Config, run: seq<Report>, r: Report)
    ensures After(cfg, run + [r]) == Apply(cfg, After(cfg, run), r)
  {
    assert (run + [r])[..|run|] == run;
  }

  // ---------------------------------------------------------------- the checker

  /** Upstream name to address to counters, and upstream name to configuration. The ghost
      history records the reports each registered target has received since registration;
      Valid ties the counters to it, so that the lemmas about runs above speak about every
      reachable state of the checker. */
  class HealthChecker {
    var targets: map<string, map<string, TargetHealth>>
    var configs: map<string, Config>
    ghost var history: map<string, map<string, seq<Report>>>

    ghost predicate Valid()
      reads this
    {
      && targets.Keys == history.Keys == configs.Keys
      && forall u :: u in targets ==>
           && targets[u].Keys == history[u].Keys
           && forall a :: a in targets[u] ==> targets[u][a] == After(configs[u], history[u][a])
    }

    constructor ()
      ensures Valid() && targets == map[] && history == map[]
    {
      targets := map[];
      configs := map[];
      history := map[];
    }

    method RegisterUpstream(upstream: string, addresses: seq<string>, config: Config)
      requires Valid()
      modifies this
      ensures Valid()
      ensures history == old(history)[upstream := map a | a in addresses :: []]
      ensures configs == old(configs)[upstream := config]
      ensures forall a :: a in addresses ==> Tracked(upstream, a) && IsHealthy(upstream, a)
    {
      targets := targets[upstream := map a | a in addresses :: FRESH];
      configs := configs[upstream := config];
      history := history[upstream := map a | a in addresses :: []];
    }

    predicate Tracked(upstream: string, address: string)
      reads this
    {
      upstream in targets && address in targets[upstream]
    }

    /** Targets nobody registered count as healthy. */
    predicate IsHealthy(upstream: string, address: string)
      reads this
    {
      Tracked(upstream, address) ==> targets[upstream][address].status == Healthy
    }

    /** A report is appended to the history of the named target, and nothing else changes. */
    method UpdateHealth(upstream: string, address: string, report: Report)
      requires Valid()
      modifies this`targets, this`history
      ensures Valid()
      ensures !old(Tracked(upstream, address)) ==> targets == old(targets) && history == old(history)
      ensures old(Tracked(upstream, address)) ==>
                history == old(history)[upstream := old(history)[upstream][address := old(history)[upstream][address] + [report]]]
    {
      if upstream !in configs {
        return;
      }
      var config := configs[upstream];
      if upstream in targets {
        var table := targets[upstream];
        if address in table {
          targets := targets[upstream := table[address := Apply(config, table[address], report)]];
          AfterOneMore(config, history[upstream][address], report);
          history := history[upstream := history[upstream][address := history[upstream][address] + [report]]];
        }
      }
    }
  }

  /** A target is in rotation exactly unless it is registered and the reports since then leave it out. */
  lemma HealthyExactlyWhen(hc: HealthChecker, upstream: string, address: string)
    requires hc.Valid()
    ensures hc.IsHealthy(upstream, address) <==>
            !(upstream in hc.history && address in hc.history[upstream] && Out(hc.configs[upstream], hc.history[upstream][address]))
  {
    if hc.Tracked(upstream, address) {
      StatusAfter(hc.configs[upstream], hc.history[upstream][address]);
    }
  }
}
