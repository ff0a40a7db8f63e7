/**
 From the cluster to the scrape: the Cilium identity watcher, its collector and the exporter's loop together.
 */
module IdentitySeries {
  import opened Text
  import opened MetricName
  import opened SecurityLabels
  import Watcher = IdentityWatcher
  import Loop = Exporter

  // ---- what the store calls for ----

  /** The number of identities of each namespace that has any. */
  ghost function StoreCounts(store: map<string, Watcher.Identity>): map<string, nat> {
    var spaces := set name | name in store && Watcher.NamespaceOf(store[name]).Some? ::
      Watcher.NamespaceOf(store[name]).value;
    map ns | ns in spaces :: |Watcher.Listed(store, ns)|
  }

  ghost function StoreInfos(store: map<string, Watcher.Identity>): map<string, Watcher.Info> {
    map name | name in store && Watcher.InfoOf(store[name]).Some? :: Watcher.InfoOf(store[name]).value
  }

  /** At quiescence the watcher's maps are those of the store if and only if its run is on course. */
  lemma {:induction false} QuiescentCache(s: Watcher.System, steps: seq<Watcher.Step>)
    requires Watcher.Init(s) && Watcher.Exec(s, steps).Some? && Watcher.Quiescent(Watcher.Exec(s, steps).value)
    ensures var t := Watcher.Exec(s, steps).value;
            t.cache.counts == StoreCounts(t.store) && t.cache.identities == StoreInfos(t.store) <==>
              Watcher.OnCourse(s, steps)
  {
    Watcher.QuiescentIsExact(s, steps);
    ExactCache(Watcher.Exec(s, steps).value.cache, Watcher.Exec(s, steps).value.store);
  }

  lemma {:induction false} ExactCache(cache: Watcher.Cache, store: map<string, Watcher.Identity>)
    ensures Watcher.MapsExact(cache, store) <==>
              cache.counts == StoreCounts(store) && cache.identities == StoreInfos(store)
  {
    forall ns: string
      ensures Watcher.CountExact(cache, store, ns) <==> Get(cache.counts, ns) == Get(StoreCounts(store), ns)
    {
      CountOf(store, ns);
    }
    forall name: string ensures Watcher.StoredInfo(store, name) == Get(StoreInfos(store), name) {
    }
    if Watcher.MapsExact(cache, store) {
      forall ns: string ensures Get(cache.counts, ns) == Get(StoreCounts(store), ns) {
        assert Watcher.CountExact(cache, store, ns);
      }
      SameMap(cache.counts, StoreCounts(store));
      SameMap(cache.identities, StoreInfos(store));
    }
  }

  lemma {:induction false} CountOf(store: map<string, Watcher.Identity>, ns: string)
    ensures var n := |Watcher.Listed(store, ns)|; Get(StoreCounts(store), ns) == if n > 0 then Some(n) else None
  {
    var listed := Watcher.Listed(store, ns);
    if listed != {} {
      var name :| name in listed;
      assert ns in StoreCounts(store);
    }
    if ns in StoreCounts(store) {
      var name :| name in store && Watcher.NamespaceOf(store[name]) == Some(ns);
      assert name in listed;
    }
  }

  // ---- names and labels tell these metrics apart ----

  /** One count for each namespace and one info for each identity. */
  ghost function Metrics(counts: map<string, nat>, infos: map<string, Watcher.Info>): set<Metric> {
    CountMetrics(counts) + InfoMetrics(infos)
  }

  lemma {:induction false} CountTag(counts: map<string, nat>, x: Metric) returns (ns: string)
    requires x in CountMetrics(counts)
    ensures ns in counts && x == CountFor(counts)(ns) && x.name == COUNT
    ensures x.labels == map["namespace" := ns] && PlainKeys(x.labels) && '{' !in x.name
  {
    ns :| ns in counts && x == CountFor(counts)(ns);
    assert '=' !in "namespace";
  }

  lemma {:induction false} InfoTag(infos: map<string, Watcher.Info>, x: Metric) returns (name: string)
    requires x in InfoMetrics(infos)
    ensures name in infos && x == InfoFor(infos)(name) && x.name == INFO
    ensures Get(x.labels, "identity") == Some(name) && PlainKeys(x.labels) && '{' !in x.name
  {
    InfoIsPlain();
    name :| name in infos && x == InfoFor(infos)(name);
    InfoLabelsKeep(name, infos[name]);
  }

  lemma {:induction false} IsPlain(counts: map<string, nat>, infos: map<string, Watcher.Info>, x: Metric)
    requires x in Metrics(counts, infos)
    ensures '{' !in x.name && PlainKeys(x.labels)
  {
    if x in CountMetrics(counts) {
      var ns := CountTag(counts, x);
    } else {
      var name := InfoTag(infos, x);
    }
  }

  lemma {:induction false} LabelsTellMetric(counts: map<string, nat>, infos: map<string, Watcher.Info>,
                                            x: Metric, y: Metric)
    requires x in Metrics(counts, infos) && y in Metrics(counts, infos) && x.name == y.name && x.labels == y.labels
    ensures x == y
  {
    assert |COUNT| != |INFO|;
    if x in CountMetrics(counts) {
      var a := CountTag(counts, x);
      if y in CountMetrics(counts) { SameCount(counts, x, y); } else { var b := InfoTag(infos, y); }
    } else {
      var a := InfoTag(infos, x);
      if y in CountMetrics(counts) { var b := CountTag(counts, y); } else { var b := InfoTag(infos, y); }
    }
  }

  lemma {:induction false} SameCount(counts: map<string, nat>, x: Metric, y: Metric)
    requires x in CountMetrics(counts) && y in CountMetrics(counts) && x.labels == y.labels
    ensures x == y
  {
    var a := CountTag(counts, x);
    var b := CountTag(counts, y);
    assert x.labels["namespace"] == a && y.labels["namespace"] == b;
  }

  // ---- the registry ----

  /** The view holds one series for each metric, with its value, and no other. */
  ghost predicate Holds(c: Loop.Config, i: nat, view: map<string, real>, metrics: set<Metric>) {
    && (forall x | x in metrics :: Get(view, c.name(i, x)) == Some(x.value))
    && (forall n | n in view :: exists x | x in metrics :: n == c.name(i, x))
    && (forall x, y | x in metrics && y in metrics && c.name(i, x) == c.name(i, y) :: x == y)
  }

  lemma {:induction false} NamesTellMetric(c: Loop.Config, i: nat, counts: map<string, nat>,
                                           infos: map<string, Watcher.Info>, x: Metric, y: Metric)
    requires Loop.ValidConfig(c) && i < |c.collectors| && x in Metrics(counts, infos) && y in Metrics(counts, infos)
    requires Printable(x.labels) && Printable(y.labels) && c.name(i, x) == c.name(i, y)
    ensures x == y
  {
    IsPlain(counts, infos, x);
    IsPlain(counts, infos, y);
    assert Loop.Printed(c, i, x) && Loop.Printed(c, i, y);
    RenderInjective(c.scope, c.collectors[i].prefix, x.name, x.labels, y.name, y.labels);
    LabelsTellMetric(counts, infos, x, y);
  }

  /** Stored metrics that have different names are held exactly. */
  lemma {:induction false} WantedHolds(c: Loop.Config, i: nat, ms: seq<Metric>, metrics: set<Metric>)
    requires i < |c.collectors| && NoDup(ms) && Elems(ms) == metrics
    requires forall x, y | x in metrics && y in metrics && c.name(i, x) == c.name(i, y) :: x == y
    ensures Holds(c, i, Loop.Wanted(c, i, ms), metrics)
  {
    assert forall k | 0 <= k < |ms| :: ms[k] in metrics;
    Loop.WantedExact(c, i, ms);
    forall x | x in metrics ensures Get(Loop.Wanted(c, i, ms), c.name(i, x)) == Some(x.value) {
      var k :| 0 <= k < |ms| && ms[k] == x;
    }
  }

  /** A goroutine that has returned what Collect makes of two maps leaves exactly their series in the registry. */
  lemma {:induction false} RegistryShowsMaps(c: Loop.Config, s: Loop.State, steps: seq<Loop.Step>, i: nat,
                                             ms: seq<Metric>, counts: map<string, nat>,
                                             infos: map<string, Watcher.Info>)
    requires Loop.ValidConfig(c) && Loop.Init(c, s) && Loop.Exec(c, s, steps).Some? && i < |c.collectors|
    requires Loop.Exec(c, s, steps).value.goroutines[i].Finished?
    requires Loop.LastOutcome(steps, i) == Some(Loop.Returned(ms)) && Collected(counts, infos, ms)
    ensures Holds(c, i, Loop.ViewOf(c, Loop.Exec(c, s, steps).value, i), Metrics(counts, infos))
  {
    Loop.RegistryIsExact(c, s, steps, i);
    AllPrintable(c, s, steps, i, ms);
    forall x, y | x in Metrics(counts, infos) && y in Metrics(counts, infos) && c.name(i, x) == c.name(i, y)
      ensures x == y
    {
      assert x in Elems(ms) && y in Elems(ms);
      NamesTellMetric(c, i, counts, infos, x, y);
    }
    WantedHolds(c, i, ms, Metrics(counts, infos));
  }

  lemma {:induction false} AllPrintable(c: Loop.Config, s: Loop.State, steps: seq<Loop.Step>, i: nat, ms: seq<Metric>)
    requires Loop.Init(c, s) && Loop.Exec(c, s, steps).Some? && i < |c.collectors|
    requires Loop.Exec(c, s, steps).value.goroutines[i].Finished?
    requires Loop.LastOutcome(steps, i) == Some(Loop.Returned(ms))
    ensures forall x | x in ms :: Printable(x.labels)
  {
    Loop.OutcomeIsKept(c, s, steps, i);
    Loop.FinishedIsPrintable(c, s, steps, i);
    assert Loop.PrintableTo(ms, |ms|);
  }

  // ---- joint runs ----

  /** A step of the watcher, a step of the loop, or one of the two reads that the collector makes under the lock. */
  datatype JointStep = Watch(event: Watcher.Step) | Drive(step: Loop.Step) | ReadCounts | ReadInfos

  /** Where everything starts, and which collector is the one for identities. */
  datatype Joint = Joint(watcher: Watcher.System, config: Loop.Config, loop: Loop.State, i: nat)

  ghost function Events(run: seq<JointStep>): seq<Watcher.Step> {
    if run == [] then []
    else
      var front, last := run[..|run| - 1], run[|run| - 1];
      Events(front) + if last.Watch? then [last.event] else []
  }

  ghost function Steps(run: seq<JointStep>): seq<Loop.Step> {
    if run == [] then []
    else
      var front, last := run[..|run| - 1], run[|run| - 1];
      Steps(front) + if last.Drive? then [last.step] else []
  }

  /** The number of watcher steps before the last read of the counts. */
  ghost function CountsRead(run: seq<JointStep>): (n: nat)
    ensures n <= |Events(run)|
  {
    if run == [] then 0
    else if run[|run| - 1].ReadCounts? then |Events(run[..|run| - 1])|
    else CountsRead(run[..|run| - 1])
  }

  ghost function InfosRead(run: seq<JointStep>): (n: nat)
    ensures n <= |Events(run)|
  {
    if run == [] then 0
    else if run[|run| - 1].ReadInfos? then |Events(run[..|run| - 1])|
    else InfosRead(run[..|run| - 1])
  }

  ghost predicate Begins(j: Joint) {
    && Watcher.Init(j.watcher) && Loop.ValidConfig(j.config) && Loop.Init(j.config, j.loop)
    && j.i < |j.config.collectors|
  }

  /** The watcher as it was after some of the run's watcher steps. */
  ghost function At(j: Joint, events: seq<Watcher.Step>, n: nat): Watcher.System
    requires n <= |events|
  {
    if Watcher.Exec(j.watcher, events[..n]).Some? then Watcher.Exec(j.watcher, events[..n]).value else j.watcher
  }

  /** What the collector returns is made of the two maps it read. */
  ghost predicate FromReads(j: Joint, run: seq<JointStep>, ms: seq<Metric>) {
    Collected(At(j, Events(run), CountsRead(run)).cache.counts, At(j, Events(run), InfosRead(run)).cache.identities, ms)
  }

  /** Both sides can take their steps, the reads happen before the collector returns, and it returns what it read. */
  ghost predicate Possible(j: Joint, run: seq<JointStep>)
    requires Begins(j)
  {
    if run == [] then true
    else
      var front := run[..|run| - 1];
      && Possible(j, front)
      && match run[|run| - 1]
         case Watch(_) => Watcher.Exec(j.watcher, Events(run)).Some?
         case Drive(step) =>
           && Loop.Exec(j.config, j.loop, Steps(run)).Some?
           && (step.Collect? && step.i == j.i && step.outcome.Returned? ==> FromReads(j, front, step.outcome.metrics))
         case _ =>
           var now := Loop.Exec(j.config, j.loop, Steps(front));
           now.Some? && now.value.goroutines[j.i].Spawned?
  }

  lemma {:induction false} BothRun(j: Joint, run: seq<JointStep>)
    requires Begins(j) && Possible(j, run)
    ensures Watcher.Exec(j.watcher, Events(run)).Some? && Loop.Exec(j.config, j.loop, Steps(run)).Some?
  {
    if run == [] {
    } else {
      var front, last := run[..|run| - 1], run[|run| - 1];
      BothRun(j, front);
      assert !last.Watch? ==> Events(run) == Events(front);
      assert !last.Drive? ==> Steps(run) == Steps(front);
    }
  }

  /** Steps of the watcher and of the loop leave what was read as it is. */
  lemma {:induction false} ReadsKept(j: Joint, run: seq<JointStep>, ms: seq<Metric>)
    requires run != [] && (run[|run| - 1].Watch? || run[|run| - 1].Drive?)
    ensures FromReads(j, run, ms) <==> FromReads(j, run[..|run| - 1], ms)
  {
    var front := run[..|run| - 1];
    assert Events(run)[..CountsRead(front)] == Events(front)[..CountsRead(front)];
    assert Events(run)[..InfosRead(front)] == Events(front)[..InfosRead(front)];
  }

  /** While the collector's goroutine has not been started there is no outcome. */
  lemma {:induction false} NoOutcomeAtRead(j: Joint, run: seq<JointStep>)
    requires Begins(j) && run != [] && Possible(j, run) && (run[|run| - 1].ReadCounts? || run[|run| - 1].ReadInfos?)
    ensures Loop.LastOutcome(Steps(run), j.i) == None
  {
    var front := run[..|run| - 1];
    assert Steps(run) == Steps(front);
    Loop.OutcomeIsKept(j.config, j.loop, Steps(front), j.i);
  }

  /** A loop step other than the collector's return keeps the outcome or drops it. */
  lemma {:induction false} OutcomeBefore(steps: seq<Loop.Step>, step: Loop.Step, i: nat)
    requires !(step.Collect? && step.i == i)
    ensures Loop.LastOutcome(steps + [step], i) == if step.NextTick? then None else Loop.LastOutcome(steps, i)
    ensures (steps + [step])[..|steps|] == steps
  {
    assert (steps + [step])[..|steps|] == steps;
  }

  /** The last outcome of the collector was made of the last two reads. */
  lemma {:induction false} OutcomeFromReads(j: Joint, run: seq<JointStep>, ms: seq<Metric>)
    requires Begins(j) && Possible(j, run) && Loop.LastOutcome(Steps(run), j.i) == Some(Loop.Returned(ms))
    ensures FromReads(j, run, ms)
  {
    assert run != [];
    var front, last := run[..|run| - 1], run[|run| - 1];
    match last {
      case Watch(_) =>
        ReadsKept(j, run, ms);
        assert Steps(run) == Steps(front);
        OutcomeFromReads(j, front, ms);
      case Drive(step) =>
        ReadsKept(j, run, ms);
        if step.Collect? && step.i == j.i {
        } else {
          OutcomeBefore(Steps(front), step, j.i);
          OutcomeFromReads(j, front, ms);
        }
      case _ => NoOutcomeAtRead(j, run);
    }
  }

  /** A count that is shown is the store's when it was read, plus the drift, or an event was then on its way. */
  ghost predicate CountSound(j: Joint, events: seq<Watcher.Step>, n: nat, ns: string)
    requires n <= |events| && Watcher.Exec(j.watcher, events[..n]).Some?
  {
    var t := At(j, events, n);
    var k := |Watcher.Listed(t.store, ns)| + Watcher.Drift(j.watcher, events[..n], ns);
    (0 <= k && Watcher.CountIs(t.cache, ns, k)) || Watcher.Awaits(Watcher.InFlight(t) + t.queue, ns)
  }

  ghost predicate InfoSound(j: Joint, events: seq<Watcher.Step>, n: nat, name: string)
    requires n <= |events| && Watcher.Exec(j.watcher, events[..n]).Some?
  {
    var t := At(j, events, n);
    || Get(t.cache.identities, name) == Watcher.StoredInfo(t.store, name)
    || Watcher.Stranded(j.watcher, events[..n], name) || Watcher.Concerns(Watcher.InFlight(t) + t.queue, name)
  }

  /**
   End to end: in every joint run, once the collector's goroutine has finished its tick, the registry under its
   prefix holds exactly one series for each namespace and identity in the two maps as they were read, and each
   of them was the store's at its own read up to drift and strandedness, or had an event on its way.
   */
  lemma {:induction false} RegistryShowsReads(j: Joint, run: seq<JointStep>, ms: seq<Metric>)
    requires Begins(j) && Possible(j, run)
    requires Loop.Exec(j.config, j.loop, Steps(run)).Some?
    requires Loop.Exec(j.config, j.loop, Steps(run)).value.goroutines[j.i].Finished?
    requires Loop.LastOutcome(Steps(run), j.i) == Some(Loop.Returned(ms))
    ensures var counts := At(j, Events(run), CountsRead(run)).cache.counts;
            var infos := At(j, Events(run), InfosRead(run)).cache.identities;
            Holds(j.config, j.i, Loop.ViewOf(j.config, Loop.Exec(j.config, j.loop, Steps(run)).value, j.i),
                  Metrics(counts, infos))
    ensures Watcher.Exec(j.watcher, Events(run)[..CountsRead(run)]).Some?
    ensures Watcher.Exec(j.watcher, Events(run)[..InfosRead(run)]).Some?
    ensures forall ns: string :: CountSound(j, Events(run), CountsRead(run), ns)
    ensures forall name: string :: InfoSound(j, Events(run), InfosRead(run), name)
  {
    var events := Events(run);
    OutcomeFromReads(j, run, ms);
    BothRun(j, run);
    ReadsAreSound(j, events, CountsRead(run), InfosRead(run));
    RegistryShowsMaps(j.config, j.loop, Steps(run), j.i, ms, At(j, events, CountsRead(run)).cache.counts,
                      At(j, events, InfosRead(run)).cache.identities);
  }

  lemma {:induction false} ReadsAreSound(j: Joint, events: seq<Watcher.Step>, a: nat, b: nat)
    requires Watcher.Init(j.watcher) && Watcher.Exec(j.watcher, events).Some? && a <= |events| && b <= |events|
    ensures Watcher.Exec(j.watcher, events[..a]).Some? && Watcher.Exec(j.watcher, events[..b]).Some?
    ensures forall ns: string :: CountSound(j, events, a, ns)
    ensures forall name: string :: InfoSound(j, events, b, name)
  {
    Watcher.PrefixRuns(j.watcher, events, a);
    Watcher.PrefixRuns(j.watcher, events, b);
    forall ns: string ensures CountSound(j, events, a, ns) {
      Watcher.CountDriftsOrPending(j.watcher, events[..a], ns);
    }
    forall name: string ensures InfoSound(j, events, b, name) {
      Watcher.InfoExactOrPending(j.watcher, events[..b], name);
    }
  }

  /**
   With both reads at a quiescent moment of a run on course, that is one identity_count per namespace in use, with
   the number of its identities, and one identity_info per identity of the store.
   */
  lemma {:induction false} RegistryShowsStore(j: Joint, run: seq<JointStep>, ms: seq<Metric>)
    requires Begins(j) && Possible(j, run) && CountsRead(run) == InfosRead(run)
    requires Loop.Exec(j.config, j.loop, Steps(run)).Some?
    requires Loop.Exec(j.config, j.loop, Steps(run)).value.goroutines[j.i].Finished?
    requires Loop.LastOutcome(Steps(run), j.i) == Some(Loop.Returned(ms))
    requires var events := Events(run)[..CountsRead(run)];
             && Watcher.Exec(j.watcher, events).Some? && Watcher.OnCourse(j.watcher, events)
             && Watcher.Quiescent(Watcher.Exec(j.watcher, events).value)
    ensures var store := At(j, Events(run), CountsRead(run)).store;
            Holds(j.config, j.i, Loop.ViewOf(j.config, Loop.Exec(j.config, j.loop, Steps(run)).value, j.i),
                  Metrics(StoreCounts(store), StoreInfos(store)))
  {
    RegistryShowsReads(j, run, ms);
    QuiescentCache(j.watcher, Events(run)[..CountsRead(run)]);
  }
}
