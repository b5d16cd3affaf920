/** `Database.Health`: the status report built from a ping and the connection-pool
    statistics. Only the pure part is modelled: which message is chosen and how
    the counters are rendered. The ping is a parameter. */
module DbHealth {

  import opened Results
  import opened GoInts
  import opened GoStrings

  /** The counters of `sql.DBStats` that the report reads (the wait duration is left out). */
  datatype DbStats = DbStats(
    openConnections: int,
    inUse: int,
    idle: int,
    waitCount: int,
    maxIdleClosed: int,
    maxLifetimeClosed: int)

  const HealthyMessage: string := "It's healthy"
  const HeavyLoadMessage: string := "The database is experiencing heavy load."
  const WaitEventsMessage: string := "The database has a high number of wait events, indicating potential bottlenecks."
  const IdleClosedMessage: string := "Many idle connections are being closed, consider revising the connection pool settings."
  const LifetimeClosedMessage: string := "Many connections are being closed due to max lifetime, consider increasing max lifetime or revising the connection usage pattern."

  const HeavyLoadThreshold: int := 40
  const WaitCountThreshold: int := 1000

  /** One threshold rule: whether it fires on these statistics, and the message it sets. */
  datatype Rule = Rule(fires: bool, message: string)

  /** The four rules in the order `Database.Health` in db.go checks them. The two "closed" rules
      compare against half the open connections, truncated as Go's `/` does. */
  function Rules(s: DbStats): seq<Rule>
  {
    [ Rule(s.openConnections > HeavyLoadThreshold, HeavyLoadMessage),
      Rule(s.waitCount > WaitCountThreshold, WaitEventsMessage),
      Rule(s.maxIdleClosed > Quot(s.openConnections, 2), IdleClosedMessage),
      Rule(s.maxLifetimeClosed > Quot(s.openConnections, 2), LifetimeClosedMessage) ]
  }

  /** Reference reading of a chain of independent `if`s that overwrite one variable:
      the message of the last rule that fires, or the default when none does. */
  function LastFiring(rules: seq<Rule>, default: string): (m: string)
    ensures (forall k :: 0 <= k < |rules| ==> !rules[k].fires) ==> m == default
    ensures rules != [] && rules[|rules| - 1].fires ==> m == rules[|rules| - 1].message
  {
    if rules == [] then default
    else if rules[|rules| - 1].fires then rules[|rules| - 1].message
    else LastFiring(rules[..|rules| - 1], default)
  }

  /** The message as `Database.Health` computes it: start healthy, then let each rule overwrite. */
  function Message(s: DbStats): string
  {
    var m0 := HealthyMessage;
    var m1 := if s.openConnections > HeavyLoadThreshold then HeavyLoadMessage else m0;
    var m2 := if s.waitCount > WaitCountThreshold then WaitEventsMessage else m1;
    var m3 := if s.maxIdleClosed > Quot(s.openConnections, 2) then IdleClosedMessage else m2;
    var m4 := if s.maxLifetimeClosed > Quot(s.openConnections, 2) then LifetimeClosedMessage else m3;
    m4
  }

  /** The overwrite chain selects exactly the last rule that fires. */
  lemma MessageIsLastFiring(s: DbStats)
    ensures Message(s) == LastFiring(Rules(s), HealthyMessage)
  {
    var rs := Rules(s);
    var h := HealthyMessage;
    var r0, r1, r2 := rs[..1], rs[..2], rs[..3];
    assert r0[..0] == [] && r1[..1] == r0 && r2[..2] == r1 && rs[..3] == r2;
    var m1 := LastFiring(r0, h);
    assert m1 == if rs[0].fires then rs[0].message else h;
    var m2 := LastFiring(r1, h);
    assert m2 == if rs[1].fires then rs[1].message else m1;
    var m3 := LastFiring(r2, h);
    assert m3 == if rs[2].fires then rs[2].message else m2;
    assert LastFiring(rs, h) == if rs[3].fires then rs[3].message else m3;
  }

  /** Result of `Health()`: the report, or the process exiting through `log.Fatalf`
      after a failed ping (the report built so far is never returned). */
  datatype HealthOutcome = Report(stats: map<string, string>) | ProcessExit(reason: string)

  /** The report's counter entries, by key. */
  const CounterKeys: set<string> :=
    {"open_connections", "in_use", "idle", "wait_count", "max_idle_closed", "max_lifetime_closed"}

  /** The statistic a counter entry renders. */
  function Stat(s: DbStats, key: string): int
  {
    if key == "open_connections" then s.openConnections
    else if key == "in_use" then s.inUse
    else if key == "idle" then s.idle
    else if key == "wait_count" then s.waitCount
    else if key == "max_idle_closed" then s.maxIdleClosed
    else s.maxLifetimeClosed
  }

  /** Each key names its own statistic, and neither fixed entry is a counter. */
  lemma KeysNameTheirStatistics(s: DbStats)
    ensures Stat(s, "open_connections") == s.openConnections
    ensures Stat(s, "in_use") == s.inUse
    ensures Stat(s, "idle") == s.idle
    ensures Stat(s, "wait_count") == s.waitCount
    ensures Stat(s, "max_idle_closed") == s.maxIdleClosed
    ensures Stat(s, "max_lifetime_closed") == s.maxLifetimeClosed
    ensures "status" !in CounterKeys && "message" !in CounterKeys
  {
  }

  /** The six counter entries, each the decimal rendering (`strconv.Itoa` /
      `FormatInt(_, 10)`) of its statistic. */
  function Counters(s: DbStats): (m: map<string, string>)
    ensures m.Keys == CounterKeys
    ensures forall k :: k in m ==> ParseDecimal(m[k]) == Some(Stat(s, k))
  {
    var m := map k | k in CounterKeys :: Itoa(Stat(s, k));
    assert forall k :: k in m ==> ParseDecimal(m[k]) == Some(Stat(s, k)) by {
      forall k | k in m
        ensures ParseDecimal(m[k]) == Some(Stat(s, k))
      {
        ItoaRoundTrip(Stat(s, k));
      }
    }
    m
  }

  function Health(ping: Fault, s: DbStats): (r: HealthOutcome)
    ensures ping.Down? <==> r.ProcessExit?
    ensures ping.Down? ==> r.reason == "db down: " + ping.reason
    ensures r.Report? ==>
              && r.stats.Keys == CounterKeys + {"status", "message"}
              && r.stats["status"] == "up"
              && r.stats["message"] == Message(s)
              && forall k :: k in CounterKeys ==> ParseDecimal(r.stats[k]) == Some(Stat(s, k))
  {
    if ping.Down? then ProcessExit("db down: " + ping.reason)
    else
      KeysNameTheirStatistics(s);
      Report(Counters(s)["status" := "up"]["message" := Message(s)])
  }

  /** With no threshold crossed the report stays "It's healthy". */
  lemma QuietPoolIsHealthy(s: DbStats)
    requires s.openConnections <= HeavyLoadThreshold && s.waitCount <= WaitCountThreshold
    requires s.maxIdleClosed <= Quot(s.openConnections, 2)
    requires s.maxLifetimeClosed <= Quot(s.openConnections, 2)
    ensures Message(s) == HealthyMessage
  {
  }

  /** The max-lifetime rule is checked last, so it overrides every other rule. */
  lemma LifetimeRuleOverrides(s: DbStats)
    requires s.maxLifetimeClosed > Quot(s.openConnections, 2)
    ensures Message(s) == LifetimeClosedMessage
  {
  }

  /** Later rules beat earlier ones: heavy load shows only when no later rule fires. */
  lemma HeavyLoadShowsOnlyAlone(s: DbStats)
    ensures Message(s) == HeavyLoadMessage <==>
              s.openConnections > HeavyLoadThreshold && s.waitCount <= WaitCountThreshold
              && s.maxIdleClosed <= Quot(s.openConnections, 2)
              && s.maxLifetimeClosed <= Quot(s.openConnections, 2)
  {
  }

  /** Halving truncates: with one open connection the threshold is 0, so a single
      closed connection already fires; with none open any positive count fires. */
  lemma HalvingTruncates(s: DbStats)
    requires 0 <= s.openConnections <= 1 && s.maxLifetimeClosed >= 1
    ensures Message(s) == LifetimeClosedMessage
  {
  }
}
