/**
 neco-exporter's collection loop: goroutines, one per collector, update one metric registry.
 Every access to the registry is one step, and steps of different goroutines interleave freely.
 */
module Exporter {
  import opened Text
  import opened MetricName

  datatype Collector = Collector(prefix: string, leaderOnly: bool)

  /** `name(i, m)` is what the goroutine of collector i calls metric m; Prints says what that is. */
  datatype Config = Config(scope: string, collectors: seq<Collector>, name: (nat, Metric) -> string)

  /** What a goroutine's Collect call came to; Skipped when it was not made. */
  datatype Outcome = Skipped | Failed | Returned(metrics: seq<Metric>)

  datatype Goroutine =
    | Spawned
    | Storing(metrics: seq<Metric>, done: nat, registered: bool, next: set<string>)
    | Sweeping(outcome: Outcome, todo: set<string>, next: set<string>)
    | Finished(outcome: Outcome)

  datatype State = State(
    leader: bool,
    registry: map<string, real>,
    prev: seq<set<string>>,
    goroutines: seq<Goroutine>,
    health: seq<bool>,
    seconds: seq<real>,
    published: bool)

  datatype Step =
    | Collect(i: nat, outcome: Outcome, seconds: real)
    | Register(i: nat)
    | SetValue(i: nat)
    | BeginSweep(i: nat)
    | Unregister(i: nat, name: string)
    | Finish(i: nat)
    | Publish
    | NextTick(leader: bool)

  ghost predicate Printed(c: Config, i: nat, m: Metric)
    requires i < |c.collectors|
  {
    c.name(i, m) == Rendered(c.scope, c.collectors[i].prefix, m.name, m.labels)
  }

  /** Names are those that BuildMetricName prints. */
  ghost predicate Prints(c: Config) {
    forall i: nat, m: Metric | i < |c.collectors| :: Printed(c, i, m)
  }

  ghost function Printing(scope: string, collectors: seq<Collector>): (c: Config)
    ensures Prints(c) && c.scope == scope && c.collectors == collectors
  {
    var name := (i: nat, m: Metric) =>
      if i < |collectors| then Rendered(scope, collectors[i].prefix, m.name, m.labels) else "";
    Config(scope, collectors, name)
  }

  ghost predicate Runs(c: Config, s: State, i: nat)
    requires i < |c.collectors|
  {
    s.leader || !c.collectors[i].leaderOnly
  }

  ghost predicate WellFormed(c: Config, s: State) {
    |s.prev| == |s.goroutines| == |s.health| == |s.seconds| == |c.collectors|
  }

  ghost predicate AllFinished(s: State) {
    forall i | 0 <= i < |s.goroutines| :: s.goroutines[i].Finished?
  }

  /** The steps that the program can take next. */
  ghost predicate Enabled(c: Config, s: State, step: Step)
    requires WellFormed(c, s)
  {
    match step
    case Collect(i, outcome, _) =>
      i < |c.collectors| && s.goroutines[i].Spawned? && (outcome.Skipped? <==> !Runs(c, s, i))
    case Register(i) =>
      // BuildMetricName panics on a label value that needs escaping, and the process ends
      i < |c.collectors| && s.goroutines[i].Storing? && !s.goroutines[i].registered &&
      s.goroutines[i].done < |s.goroutines[i].metrics| &&
      Printable(s.goroutines[i].metrics[s.goroutines[i].done].labels)
    case SetValue(i) =>
      i < |c.collectors| && s.goroutines[i].Storing? && s.goroutines[i].registered &&
      s.goroutines[i].done < |s.goroutines[i].metrics|
    case BeginSweep(i) =>
      i < |c.collectors| && s.goroutines[i].Storing? && s.goroutines[i].done == |s.goroutines[i].metrics|
    case Unregister(i, name) =>
      i < |c.collectors| && s.goroutines[i].Sweeping? && name in s.goroutines[i].todo
    case Finish(i) =>
      i < |c.collectors| && s.goroutines[i].Sweeping? && s.goroutines[i].todo == {}
    case Publish => AllFinished(s) && !s.published
    case NextTick(_) => s.published
  }

  ghost function Apply(c: Config, s: State, step: Step): State
    requires WellFormed(c, s) && Enabled(c, s, step)
  {
    match step
    case Collect(i, outcome, seconds) =>
      var g := if outcome.Returned? then Storing(outcome.metrics, 0, false, {}) else Sweeping(outcome, s.prev[i], {});
      if outcome.Skipped? then s.(goroutines := s.goroutines[i := g])
      else s.(goroutines := s.goroutines[i := g], health := s.health[i := outcome.Returned?],
              seconds := s.seconds[i := seconds])
    case Register(i) =>
      // GetOrCreateFloatCounter
      var g := s.goroutines[i];
      var n := c.name(i, g.metrics[g.done]);
      s.(registry := if n in s.registry then s.registry else s.registry[n := 0.0],
         goroutines := s.goroutines[i := g.(registered := true)])
    case SetValue(i) =>
      // a counter that is no longer registered is set without effect
      var g := s.goroutines[i];
      var n := c.name(i, g.metrics[g.done]);
      s.(registry := if n in s.registry then s.registry[n := g.metrics[g.done].value] else s.registry,
         prev := s.prev[i := s.prev[i] - {n}],
         goroutines := s.goroutines[i := Storing(g.metrics, g.done + 1, false, g.next + {n})])
    case BeginSweep(i) =>
      var g := s.goroutines[i];
      s.(goroutines := s.goroutines[i := Sweeping(Returned(g.metrics), s.prev[i], g.next)])
    case Unregister(i, name) =>
      var g := s.goroutines[i];
      s.(registry := s.registry - {name}, goroutines := s.goroutines[i := g.(todo := g.todo - {name})])
    case Finish(i) =>
      var g := s.goroutines[i];
      s.(prev := s.prev[i := g.next], goroutines := s.goroutines[i := Finished(g.outcome)])
    case Publish =>
      s.(registry := Published(Reports(c, s), WithLeader(c, s), |c.collectors|), published := true)
    case NextTick(leader) =>
      s.(leader := leader, goroutines := seq(|s.goroutines|, _ => Spawned), published := false)
  }

  // ---- the loop's own metrics ----

  const OWN := "collector"

  ghost function LeaderName(c: Config): string { Rendered(c.scope, OWN, "leader", map[]) }

  ghost function HealthName(c: Config, i: nat): string
    requires i < |c.collectors|
  {
    OwnName(c, "health", i)
  }

  ghost function SecondsName(c: Config, i: nat): string
    requires i < |c.collectors|
  {
    OwnName(c, "process_seconds", i)
  }

  ghost function WithLeader(c: Config, s: State): map<string, real> {
    if c.scope == "cluster" then s.registry[LeaderName(c) := if s.leader then 1.0 else 0.0] else s.registry
  }

  /** Whether collector i ran, and the names and values of its health and duration. */
  datatype Report = Report(ran: bool, healthName: string, health: real, secondsName: string, seconds: real)

  ghost function Reports(c: Config, s: State): seq<Report>
    requires WellFormed(c, s)
  {
    seq(|c.collectors|, i requires 0 <= i < |c.collectors| =>
      Report(Runs(c, s, i), HealthName(c, i), if s.health[i] then 1.0 else 0.0, SecondsName(c, i), s.seconds[i]))
  }

  ghost function Published(reports: seq<Report>, registry: map<string, real>, n: nat): map<string, real>
    requires n <= |reports|
  {
    if n == 0 then registry else WithReport(Published(reports, registry, n - 1), reports[n - 1])
  }

  ghost function WithReport(registry: map<string, real>, r: Report): map<string, real> {
    if r.ran then registry[r.healthName := r.health][r.secondsName := r.seconds] else registry
  }

  // ---- whose name is whose ----

  ghost predicate ValidConfig(c: Config) {
    && Prints(c) && '{' !in c.scope
    && (forall i | 0 <= i < |c.collectors| ::
          var p := c.collectors[i].prefix; '_' !in p && '{' !in p && !NeedsEscape(p) && p != OWN)
    && (forall i, j | 0 <= i < j < |c.collectors| :: c.collectors[i].prefix != c.collectors[j].prefix)
  }

  /** The part of the registry that lies under a prefix. */
  ghost function Under(scope: string, prefix: string, registry: map<string, real>): map<string, real> {
    Below(Stem(scope, prefix), registry)
  }

  ghost function Below(stem: string, registry: map<string, real>): map<string, real> {
    map n | n in registry && stem <= n :: registry[n]
  }

  ghost function ViewOf(c: Config, s: State, i: nat): map<string, real>
    requires i < |c.collectors|
  {
    Under(c.scope, c.collectors[i].prefix, s.registry)
  }

  /** The names and last values in a list of metrics. */
  ghost function Wanted(c: Config, i: nat, metrics: seq<Metric>): map<string, real>
    requires i < |c.collectors|
  {
    if metrics == [] then map[]
    else
      var m := metrics[|metrics| - 1];
      Wanted(c, i, metrics[..|metrics| - 1])[c.name(i, m) := m.value]
  }

  ghost function Expected(c: Config, i: nat, outcome: Outcome): map<string, real>
    requires i < |c.collectors|
  {
    if outcome.Returned? then Wanted(c, i, outcome.metrics) else map[]
  }

  /** Where goroutine i stands: its view of the registry against prev and its local variables. */
  ghost predicate Fits(c: Config, i: nat, view: map<string, real>, prev: set<string>, g: Goroutine)
    requires i < |c.collectors|
  {
    match g
    case Spawned => view.Keys == prev
    case Storing(metrics, done, registered, next) =>
      && done <= |metrics|
      && (registered ==> done < |metrics|)
      && Holds(view, Wanted(c, i, metrics[..done]), prev, next,
               if registered then {c.name(i, metrics[done])} else {})
    case Sweeping(outcome, todo, next) => Holds(view, Expected(c, i, outcome), todo, next, {})
    case Finished(outcome) => view == Expected(c, i, outcome) && prev == view.Keys
  }

  /** The view holds what is wanted, the stale names not yet unregistered, and perhaps a name just registered. */
  ghost predicate Holds(view: map<string, real>, wanted: map<string, real>, stale: set<string>, next: set<string>,
                        fresh': set<string>)
  {
    && next == wanted.Keys && stale !! next
    && view.Keys == stale + next + fresh'
    && forall n | n in next :: view[n] == wanted[n]
  }

  ghost predicate Inv(c: Config, s: State) {
    && WellFormed(c, s)
    && (s.published ==> AllFinished(s))
    && forall i | 0 <= i < |c.collectors| :: Fits(c, i, ViewOf(c, s, i), s.prev[i], s.goroutines[i])
  }

  ghost predicate Init(c: Config, s: State) {
    && WellFormed(c, s) && !s.published
    && forall i | 0 <= i < |c.collectors| ::
         s.goroutines[i].Spawned? && s.prev[i] == {} && ViewOf(c, s, i) == map[]
  }

  lemma {:induction false} NamesLieUnder(scope: string, prefix: string, name: string, labels: map<string, string>)
    ensures Stem(scope, prefix) <= Rendered(scope, prefix, name, labels)
  {
    var stem, rest := Stem(scope, prefix), Suffix(labels);
    assert (stem + name + rest)[..|stem|] == stem;
  }

  lemma {:induction false} NameLiesUnder(c: Config, i: nat, m: Metric)
    requires Prints(c) && i < |c.collectors|
    ensures Stem(c.scope, c.collectors[i].prefix) <= c.name(i, m)
  {
    assert Printed(c, i, m);
    NamesLieUnder(c.scope, c.collectors[i].prefix, m.name, m.labels);
  }

  /** Writing or removing a name under one prefix does not show under another. */
  lemma {:induction false} OtherPrefixUnchanged(scope: string, p: string, q: string, registry: map<string, real>,
                                                n: string, v: real)
    requires '_' !in p && '_' !in q && p != q && Stem(scope, p) <= n
    ensures Under(scope, q, registry[n := v]) == Under(scope, q, registry)
    ensures Under(scope, q, registry - {n}) == Under(scope, q, registry)
  {
    StemsDisjoint(scope, p, q, n);
  }

  lemma {:induction false} OwnPrefixChanged(scope: string, p: string, registry: map<string, real>, n: string, v: real)
    requires Stem(scope, p) <= n
    ensures Under(scope, p, registry[n := v]) == Under(scope, p, registry)[n := v]
    ensures Under(scope, p, registry - {n}) == Under(scope, p, registry) - {n}
    ensures n in registry <==> n in Under(scope, p, registry)
  {
  }

  /** What one step of goroutine i does to its own view. */
  ghost function ViewAfter(c: Config, s: State, i: nat, step: Step): map<string, real>
    requires WellFormed(c, s) && Enabled(c, s, step) && i < |c.collectors|
  {
    var view := ViewOf(c, s, i);
    match step
    case Register(_) =>
      var n := c.name(step.i, s.goroutines[step.i].metrics[s.goroutines[step.i].done]);
      if n in view then view else view[n := 0.0]
    case SetValue(_) =>
      var m := s.goroutines[step.i].metrics[s.goroutines[step.i].done];
      if c.name(step.i, m) in view then view[c.name(step.i, m) := m.value] else view
    case Unregister(_, name) => view - {name}
    case _ => view
  }

  ghost predicate Local(step: Step) {
    !step.Publish? && !step.NextTick?
  }

  /** A goroutine changes the registry under its own prefix only. */
  lemma {:induction false} StepIsLocal(c: Config, s: State, step: Step, i: nat)
    requires ValidConfig(c) && Inv(c, s) && Enabled(c, s, step) && Local(step) && i < |c.collectors|
    ensures ViewOf(c, Apply(c, s, step), i) == if step.i == i then ViewAfter(c, s, i, step) else ViewOf(c, s, i)
  {
    var p, q, k := c.collectors[step.i].prefix, c.collectors[i].prefix, step.i;
    if step.Register? || step.SetValue? {
      var g := s.goroutines[k];
      var m := g.metrics[g.done];
      NameLiesUnder(c, k, m);
      var v := if step.Register? then 0.0 else m.value;
      if k == i { OwnPrefixChanged(c.scope, p, s.registry, c.name(k, m), v); }
      else { OtherPrefixUnchanged(c.scope, p, q, s.registry, c.name(k, m), v); }
    } else if step.Unregister? {
      assert Fits(c, k, ViewOf(c, s, k), s.prev[k], s.goroutines[k]);
      assert step.name in ViewOf(c, s, k);
      if k == i { OwnPrefixChanged(c.scope, p, s.registry, step.name, 0.0); }
      else { OtherPrefixUnchanged(c.scope, p, q, s.registry, step.name, 0.0); }
    }
  }

  lemma {:induction false} WantedSnoc(c: Config, i: nat, metrics: seq<Metric>, k: nat)
    requires i < |c.collectors| && k < |metrics|
    ensures Wanted(c, i, metrics[..k + 1]) ==
            Wanted(c, i, metrics[..k])[c.name(i, metrics[k]) := metrics[k].value]
  {
    assert metrics[..k + 1][..k] == metrics[..k];
  }

  lemma {:induction false} RegisterHolds(view: map<string, real>, wanted: map<string, real>, prev: set<string>,
                                         next: set<string>, n: string)
    requires Holds(view, wanted, prev, next, {})
    ensures Holds(if n in view then view else view[n := 0.0], wanted, prev, next, {n})
  {
  }

  lemma {:induction false} SetHolds(view: map<string, real>, wanted: map<string, real>, prev: set<string>,
                                    next: set<string>, n: string, v: real)
    requires Holds(view, wanted, prev, next, {n})
    ensures n in view && Holds(view[n := v], wanted[n := v], prev - {n}, next + {n}, {})
  {
  }

  lemma {:induction false} RegisterFits(c: Config, i: nat, view: map<string, real>, prev: set<string>, g: Goroutine)
    requires i < |c.collectors| && g.Storing? && g.done < |g.metrics| && !g.registered && Fits(c, i, view, prev, g)
    ensures var n := c.name(i, g.metrics[g.done]);
            Fits(c, i, if n in view then view else view[n := 0.0], prev, g.(registered := true))
  {
    RegisterHolds(view, Wanted(c, i, g.metrics[..g.done]), prev, g.next, c.name(i, g.metrics[g.done]));
  }

  lemma {:induction false} SetValueFits(c: Config, i: nat, view: map<string, real>, prev: set<string>, g: Goroutine)
    requires i < |c.collectors| && g.Storing? && g.done < |g.metrics| && g.registered && Fits(c, i, view, prev, g)
    ensures var m := g.metrics[g.done];
            var n := c.name(i, m);
            n in view && Fits(c, i, view[n := m.value], prev - {n}, Storing(g.metrics, g.done + 1, false, g.next + {n}))
  {
    var m := g.metrics[g.done];
    WantedSnoc(c, i, g.metrics, g.done);
    SetHolds(view, Wanted(c, i, g.metrics[..g.done]), prev, g.next, c.name(i, m), m.value);
  }

  lemma {:induction false} StoringStepFits(c: Config, s: State, step: Step)
    requires WellFormed(c, s) && Enabled(c, s, step) && (step.Register? || step.SetValue? || step.BeginSweep?)
    requires Fits(c, step.i, ViewOf(c, s, step.i), s.prev[step.i], s.goroutines[step.i])
    ensures var s' := Apply(c, s, step);
            Fits(c, step.i, ViewAfter(c, s, step.i, step), s'.prev[step.i], s'.goroutines[step.i])
  {
    var g, view := s.goroutines[step.i], ViewOf(c, s, step.i);
    match step {
      case Register(i) => RegisterFits(c, i, view, s.prev[i], g);
      case SetValue(i) => SetValueFits(c, i, view, s.prev[i], g);
      case BeginSweep(i) => BeginSweepFits(c, i, view, s.prev[i], g);
    }
  }

  lemma {:induction false} OtherStepFits(c: Config, s: State, step: Step)
    requires WellFormed(c, s) && Enabled(c, s, step) && (step.Collect? || step.Unregister? || step.Finish?)
    requires Fits(c, step.i, ViewOf(c, s, step.i), s.prev[step.i], s.goroutines[step.i])
    ensures var s' := Apply(c, s, step);
            Fits(c, step.i, ViewAfter(c, s, step.i, step), s'.prev[step.i], s'.goroutines[step.i])
  {
    var g, view := s.goroutines[step.i], ViewOf(c, s, step.i);
    match step {
      case Collect(i, outcome, _) => CollectFits(c, i, view, s.prev[i], outcome);
      case Unregister(i, name) => UnregisterSwept(view, Expected(c, i, g.outcome), g.todo, g.next, name);
      case Finish(i) => NothingLeft(view, Expected(c, i, g.outcome), g.next);
    }
  }

  lemma {:induction false} UnregisterSwept(view: map<string, real>, wanted: map<string, real>, todo: set<string>,
                                           next: set<string>, n: string)
    requires Holds(view, wanted, todo, next, {}) && n in todo
    ensures n in view && Holds(view - {n}, wanted, todo - {n}, next, {})
  {
  }

  lemma {:induction false} NothingLeft(view: map<string, real>, wanted: map<string, real>, next: set<string>)
    requires Holds(view, wanted, {}, next, {})
    ensures view == wanted && next == view.Keys
  {
  }

  lemma {:induction false} BeginSweepFits(c: Config, i: nat, view: map<string, real>, prev: set<string>, g: Goroutine)
    requires i < |c.collectors| && g.Storing? && g.done == |g.metrics| && Fits(c, i, view, prev, g)
    ensures Holds(view, Expected(c, i, Returned(g.metrics)), prev, g.next, {})
  {
    assert g.metrics[..g.done] == g.metrics;
  }

  lemma {:induction false} CollectFits(c: Config, i: nat, view: map<string, real>, prev: set<string>, outcome: Outcome)
    requires i < |c.collectors| && view.Keys == prev
    ensures Fits(c, i, view, prev, if outcome.Returned? then Storing(outcome.metrics, 0, false, {})
                                   else Sweeping(outcome, prev, {}))
  {
    assert outcome.Returned? ==> outcome.metrics[..0] == [];
  }

  /** The loop's own metrics lie outside every collector's prefix. */
  lemma {:induction false} PublishedElsewhere(scope: string, q: string, rs: seq<Report>, registry: map<string, real>,
                                              n: nat)
    requires '_' !in q && q != OWN && n <= |rs|
    requires forall i | 0 <= i < |rs| :: Stem(scope, OWN) <= rs[i].healthName && Stem(scope, OWN) <= rs[i].secondsName
    ensures Under(scope, q, Published(rs, registry, n)) == Under(scope, q, registry)
  {
    if n == 0 {
    } else {
      PublishedElsewhere(scope, q, rs, registry, n - 1);
      var before, r := Published(rs, registry, n - 1), rs[n - 1];
      OtherPrefixUnchanged(scope, OWN, q, before, r.healthName, r.health);
      OtherPrefixUnchanged(scope, OWN, q, before[r.healthName := r.health], r.secondsName, r.seconds);
    }
  }

  lemma {:induction false} PublishKeepsViews(c: Config, s: State, i: nat)
    requires ValidConfig(c) && Inv(c, s) && Enabled(c, s, Publish) && i < |c.collectors|
    ensures ViewOf(c, Apply(c, s, Publish), i) == ViewOf(c, s, i)
  {
    var q, rs := c.collectors[i].prefix, Reports(c, s);
    assert '_' !in OWN;
    forall j | 0 <= j < |rs|
      ensures Stem(c.scope, OWN) <= rs[j].healthName && Stem(c.scope, OWN) <= rs[j].secondsName
    {
      ReportLiesUnder(c, s, j);
    }
    LeaderElsewhere(c, s, q);
    PublishedElsewhere(c.scope, q, rs, WithLeader(c, s), |c.collectors|);
  }

  lemma {:induction false} ReportLiesUnder(c: Config, s: State, j: nat)
    requires WellFormed(c, s) && j < |c.collectors|
    ensures var r := Reports(c, s)[j];
            Stem(c.scope, OWN) <= r.healthName && Stem(c.scope, OWN) <= r.secondsName
  {
    NamesLieUnder(c.scope, OWN, "health", OwnLabels(c, j));
    NamesLieUnder(c.scope, OWN, "process_seconds", OwnLabels(c, j));
  }

  lemma {:induction false} LeaderElsewhere(c: Config, s: State, q: string)
    requires '_' !in q && q != OWN
    ensures Under(c.scope, q, WithLeader(c, s)) == Under(c.scope, q, s.registry)
  {
    NamesLieUnder(c.scope, OWN, "leader", map[]);
    assert '_' !in OWN;
    OtherPrefixUnchanged(c.scope, OWN, q, s.registry, LeaderName(c), if s.leader then 1.0 else 0.0);
  }

  lemma {:induction false} StepKeepsInv(c: Config, s: State, step: Step)
    requires ValidConfig(c) && Inv(c, s) && Enabled(c, s, step)
    ensures Inv(c, Apply(c, s, step))
  {
    var s' := Apply(c, s, step);
    forall i | 0 <= i < |c.collectors| ensures Fits(c, i, ViewOf(c, s', i), s'.prev[i], s'.goroutines[i]) {
      assert Fits(c, i, ViewOf(c, s, i), s.prev[i], s.goroutines[i]);
      if Local(step) {
        StepIsLocal(c, s, step, i);
        if step.i == i {
          if step.Register? || step.SetValue? || step.BeginSweep? { StoringStepFits(c, s, step); }
          else { OtherStepFits(c, s, step); }
        }
      } else if step.Publish? {
        PublishKeepsViews(c, s, i);
      } else {
        assert s.goroutines[i].Finished?;
      }
    }
  }

  // ---- one goroutine as it is written ----

  ghost predicate PrintableTo(metrics: seq<Metric>, k: nat)
    requires k <= |metrics|
  {
    forall j | 0 <= j < k :: Printable(metrics[j].labels)
  }

  lemma {:induction false} PrintableSnoc(metrics: seq<Metric>, k: nat)
    requires k < |metrics| && PrintableTo(metrics, k)
    ensures PrintableTo(metrics, k + 1) <==> Printable(metrics[k].labels)
    ensures !Printable(metrics[k].labels) ==> !PrintableTo(metrics, |metrics|)
  {
  }

  ghost predicate SameOutside(stem: string, before: map<string, real>, after: map<string, real>) {
    forall n: string | !(stem <= n) :: Get(after, n) == Get(before, n)
  }

  lemma {:induction false} OutsideStep(stem: string, first: map<string, real>, registry: map<string, real>,
                                       n: string, v: real)
    requires SameOutside(stem, first, registry) && stem <= n
    ensures SameOutside(stem, first, registry[n := v]) && SameOutside(stem, first, registry - {n})
  {
  }

  lemma {:induction false} SweepStep(stem: string, first: map<string, real>, registry: map<string, real>,
                                     wanted: map<string, real>, todo: set<string>, next: set<string>, n: string)
    requires Holds(Below(stem, registry), wanted, todo, next, {}) && n in todo && SameOutside(stem, first, registry)
    ensures Holds(Below(stem, registry - {n}), wanted, todo - {n}, next, {}) && SameOutside(stem, first, registry - {n})
  {
    UnregisterSwept(Below(stem, registry), wanted, todo, next, n);
    assert Below(stem, registry - {n}) == Below(stem, registry) - {n};
  }

  /** The registry and the names kept from tick to tick. */
  class Exporter {
    const c: Config
    var registry: map<string, real>
    var prev: seq<set<string>>
    var health: seq<bool>
    var seconds: seq<real>

    constructor (c: Config)
      ensures this.c == c && registry == map[] && prev == seq(|c.collectors|, _ => {})
      ensures health == seq(|c.collectors|, _ => false) && seconds == seq(|c.collectors|, _ => 0.0)
    {
      this.c, registry, prev := c, map[], seq(|c.collectors|, _ => {});
      health, seconds := seq(|c.collectors|, _ => false), seq(|c.collectors|, _ => 0.0);
    }

    ghost predicate Sized()
      reads this
    {
      |prev| == |health| == |seconds| == |c.collectors|
    }

    /** The loop's state as a value, seen by a leader or not. */
    ghost function Value(isLeader: bool): (s: State)
      requires Sized()
      reads this
      ensures WellFormed(c, s)
    {
      State(isLeader, registry, prev, seq(|c.collectors|, _ => Spawned), health, seconds, false)
    }

    /** One goroutine's whole tick: `answer` and `took` are what a Collect call would come to. */
    method Goroutine(i: nat, isLeader: bool, answer: Outcome, took: real) returns (panics: bool, outcome: Outcome)
      requires Prints(c) && i < |c.collectors| && Sized() && View(i).Keys == prev[i] && !answer.Skipped?
      modifies this
      ensures outcome == if c.collectors[i].leaderOnly && !isLeader then Skipped else answer
      ensures health == (if outcome.Skipped? then old(health) else old(health)[i := answer.Returned?])
      ensures seconds == (if outcome.Skipped? then old(seconds) else old(seconds)[i := took])
      ensures panics <==> outcome.Returned? && !PrintableTo(outcome.metrics, |outcome.metrics|)
      ensures !panics ==> View(i) == Expected(c, i, outcome) && prev == old(prev)[i := View(i).Keys]
      ensures SameOutside(StemOf(i), old(registry), registry)
    {
      outcome := Skipped;
      if isLeader || !c.collectors[i].leaderOnly {
        outcome := answer;
        health := health[i := answer.Returned?];
        seconds := seconds[i := took];
      }
      panics := RunCollector(i, outcome);
    }

    /** The loop's own metrics at the end of a tick. */
    method PublishOwn(isLeader: bool)
      requires ValidConfig(c) && Sized()
      modifies this`registry
      ensures var s := old(Value(isLeader)); registry == Published(Reports(c, s), WithLeader(c, s), |c.collectors|)
    {
      ghost var s := Value(isLeader);
      PublishLeader(isLeader, s);
      AllAreReported(isLeader);
      PublishReports(isLeader, Reports(c, s), WithLeader(c, s));
    }

    method PublishLeader(isLeader: bool, ghost s: State)
      requires Sized() && s == Value(isLeader)
      modifies this`registry
      ensures registry == WithLeader(c, s)
    {
      if c.scope == "cluster" {
        var n := BuildMetricName(c.scope, OWN, "leader", map[]);
        Set(n.value, if isLeader then 1.0 else 0.0);
      }
    }

    /** What is to be published for collector i. */
    ghost predicate Reported(i: nat, r: Report, isLeader: bool)
      requires i < |c.collectors| && |health| == |seconds| == |c.collectors|
      reads this`health, this`seconds
    {
      && r.ran == (isLeader || !c.collectors[i].leaderOnly)
      && r.healthName == HealthName(c, i) && r.health == (if health[i] then 1.0 else 0.0)
      && r.secondsName == SecondsName(c, i) && r.seconds == seconds[i]
    }

    ghost predicate AllReported(rs: seq<Report>, isLeader: bool)
      requires |health| == |seconds| == |c.collectors|
      reads this`health, this`seconds
    {
      && |rs| == |c.collectors|
      && forall i: nat {:trigger Reported(i, rs[i], isLeader)} | i < |c.collectors| :: Reported(i, rs[i], isLeader)
    }

    lemma AllAreReported(isLeader: bool)
      requires Sized()
      ensures AllReported(Reports(c, Value(isLeader)), isLeader)
    {
    }

    method PublishReports(isLeader: bool, ghost rs: seq<Report>, ghost base: map<string, real>)
      requires ValidConfig(c) && Sized() && registry == base && AllReported(rs, isLeader)
      modifies this`registry
      ensures registry == Published(rs, base, |rs|)
    {
      for i := 0 to |c.collectors|
        invariant registry == Published(rs, base, i)
      {
        PublishOne(i, isLeader, rs);
      }
    }

    method PublishOne(i: nat, isLeader: bool, ghost rs: seq<Report>)
      requires ValidConfig(c) && Sized() && i < |c.collectors| && AllReported(rs, isLeader)
      modifies this`registry
      ensures registry == WithReport(old(registry), rs[i])
    {
      assert Reported(i, rs[i], isLeader);
      if isLeader || !c.collectors[i].leaderOnly {
        var labels := map["collector" := c.collectors[i].prefix];
        OwnLabelsPlain(c, i);
        var n := BuildMetricName(c.scope, OWN, "health", labels);
        if health[i] { Set(n.value, 1.0); } else { Set(n.value, 0.0); }
        n := BuildMetricName(c.scope, OWN, "process_seconds", labels);
        Set(n.value, seconds[i]);
      }
    }

    ghost function StemOf(i: nat): string
      requires i < |c.collectors|
    {
      Stem(c.scope, c.collectors[i].prefix)
    }

    ghost function View(i: nat): map<string, real>
      requires i < |c.collectors|
      reads this
    {
      Below(StemOf(i), registry)
    }

    /** A run without interference: the registry is exact under the collector's prefix and untouched elsewhere. */
    method RunCollector(i: nat, outcome: Outcome) returns (panics: bool)
      requires Prints(c) && i < |c.collectors| && |prev| == |c.collectors| && View(i).Keys == prev[i]
      modifies this`registry, this`prev
      ensures panics <==> outcome.Returned? && !PrintableTo(outcome.metrics, |outcome.metrics|)
      ensures !panics ==> View(i) == Expected(c, i, outcome) && prev == old(prev)[i := View(i).Keys]
      ensures SameOutside(StemOf(i), old(registry), registry)
    {
      CollectFits(c, i, View(i), prev[i], outcome);
      var next: set<string> := {};
      if outcome.Returned? {
        next, panics := StoreAll(i, outcome.metrics);
        if panics { return; }
        BeginSweepFits(c, i, View(i), prev[i], Storing(outcome.metrics, |outcome.metrics|, false, next));
      }
      Sweep(i, next, Expected(c, i, outcome), old(registry));
      return false;
    }

    method StoreAll(i: nat, metrics: seq<Metric>) returns (next: set<string>, panics: bool)
      requires Prints(c) && i < |c.collectors| && |prev| == |c.collectors|
      requires Fits(c, i, View(i), prev[i], Storing(metrics, 0, false, {}))
      modifies this`registry, this`prev
      ensures panics <==> !PrintableTo(metrics, |metrics|)
      ensures |prev| == |c.collectors| && prev == old(prev)[i := prev[i]]
      ensures !panics ==> Fits(c, i, View(i), prev[i], Storing(metrics, |metrics|, false, next))
      ensures SameOutside(StemOf(i), old(registry), registry)
    {
      next := {};
      for k := 0 to |metrics|
        invariant |prev| == |c.collectors| && prev == old(prev)[i := prev[i]]
        invariant Fits(c, i, View(i), prev[i], Storing(metrics, k, false, next))
        invariant PrintableTo(metrics, k) && SameOutside(StemOf(i), old(registry), registry)
      {
        PrintableSnoc(metrics, k);
        var name := StoreMetric(i, metrics[k], Storing(metrics, k, false, next), old(registry));
        if name.None? { return next, true; }
        next := next + {name.value};
      }
      return next, false;
    }

    /** One returned metric is registered and set, and is no longer stale. */
    method StoreMetric(i: nat, m: Metric, ghost g: Goroutine, ghost first: map<string, real>)
        returns (name: Option<string>)
      requires Prints(c) && i < |c.collectors| && |prev| == |c.collectors| && Fits(c, i, View(i), prev[i], g)
      requires g.Storing? && g.done < |g.metrics| && !g.registered && g.metrics[g.done] == m
      requires SameOutside(StemOf(i), first, registry)
      modifies this`registry, this`prev
      ensures name.Some? <==> Printable(m.labels)
      ensures name.None? ==> registry == old(registry) && prev == old(prev)
      ensures name.Some? ==>
                && name.value == c.name(i, m) && registry == old(registry)[name.value := m.value]
                && prev == old(prev)[i := old(prev)[i] - {name.value}]
                && Fits(c, i, View(i), prev[i], Storing(g.metrics, g.done + 1, false, g.next + {name.value}))
      ensures SameOutside(StemOf(i), first, registry)
    {
      assert Printed(c, i, m);
      name := BuildMetricName(c.scope, c.collectors[i].prefix, m.name, m.labels);
      if name.None? { return; }
      StoreFits(c, i, registry, prev[i], g);
      OutsideStep(StemOf(i), first, registry, name.value, m.value);
      Set(name.value, m.value);
      prev := prev[i := prev[i] - {name.value}];
    }

    /** Get or create the counter, then set it. */
    method Set(n: string, v: real)
      modifies this`registry
      ensures registry == old(registry)[n := v]
    {
      if n !in registry { registry := registry[n := 0.0]; }
      registry := registry[n := v];
    }

    method Sweep(i: nat, next: set<string>, ghost wanted: map<string, real>, ghost first: map<string, real>)
      requires i < |c.collectors| && |prev| == |c.collectors| && Holds(View(i), wanted, prev[i], next, {})
      requires SameOutside(StemOf(i), first, registry)
      modifies this`registry, this`prev
      ensures View(i) == wanted && prev == old(prev)[i := View(i).Keys]
      ensures SameOutside(StemOf(i), first, registry)
    {
      ghost var stem := StemOf(i);
      UnregisterAll(prev[i], next, stem, wanted, first);
      NothingLeft(Below(stem, registry), wanted, next);
      prev := prev[i := next];
    }

    method UnregisterAll(stale: set<string>, ghost next: set<string>, ghost stem: string,
                         ghost wanted: map<string, real>, ghost first: map<string, real>)
      requires Holds(Below(stem, registry), wanted, stale, next, {}) && SameOutside(stem, first, registry)
      modifies this`registry
      ensures Holds(Below(stem, registry), wanted, {}, next, {}) && SameOutside(stem, first, registry)
    {
      var todo := stale;
      while todo != {}
        invariant Holds(Below(stem, registry), wanted, todo, next, {}) && SameOutside(stem, first, registry)
        decreases |todo|
      {
        var n :| n in todo;
        SweepStep(stem, first, registry, wanted, todo, next, n);
        registry := registry - {n};
        todo := todo - {n};
      }
    }
  }

  /** Registering and setting one metric, taken together. */
  lemma {:induction false} StoreFits(c: Config, i: nat, registry: map<string, real>, prev: set<string>, g: Goroutine)
    requires Prints(c) && i < |c.collectors| && g.Storing? && g.done < |g.metrics| && !g.registered
    requires Fits(c, i, Below(Stem(c.scope, c.collectors[i].prefix), registry), prev, g)
    ensures var m := g.metrics[g.done];
            var n := c.name(i, m);
            && Stem(c.scope, c.collectors[i].prefix) <= n
            && Fits(c, i, Below(Stem(c.scope, c.collectors[i].prefix), registry[n := m.value]), prev - {n},
                    Storing(g.metrics, g.done + 1, false, g.next + {n}))
  {
    var m, stem := g.metrics[g.done], Stem(c.scope, c.collectors[i].prefix);
    var n, view := c.name(i, m), Below(stem, registry);
    NameLiesUnder(c, i, m);
    var view1 := if n in view then view else view[n := 0.0];
    StoredBelow(stem, registry, n, m.value);
    RegisterFits(c, i, view, prev, g);
    SetValueFits(c, i, view1, prev, g.(registered := true));
  }

  lemma {:induction false} StoredBelow(stem: string, registry: map<string, real>, n: string, v: real)
    requires stem <= n
    ensures var view := Below(stem, registry);
            var view1 := if n in view then view else view[n := 0.0];
            Below(stem, registry[n := v]) == view1[n := v]
  {
  }

  // ---- whole runs ----

  /** The state after a sequence of steps, if every one of them could be taken. */
  ghost function Exec(c: Config, s: State, steps: seq<Step>): (r: Option<State>)
    requires WellFormed(c, s)
    ensures r.Some? ==> WellFormed(c, r.value)
  {
    if steps == [] then Some(s)
    else
      var before := Exec(c, s, steps[..|steps| - 1]);
      if before.None? || !Enabled(c, before.value, steps[|steps| - 1]) then None
      else Some(Apply(c, before.value, steps[|steps| - 1]))
  }

  lemma {:induction false} RunKeepsInv(c: Config, s: State, steps: seq<Step>)
    requires ValidConfig(c) && Init(c, s) && Exec(c, s, steps).Some?
    ensures Inv(c, Exec(c, s, steps).value)
  {
    if steps == [] {
    } else {
      RunKeepsInv(c, s, steps[..|steps| - 1]);
      StepKeepsInv(c, Exec(c, s, steps[..|steps| - 1]).value, steps[|steps| - 1]);
    }
  }

  /** What collector i's call came to in the current tick, if it has been made. */
  ghost function LastOutcome(steps: seq<Step>, i: nat): Option<Outcome> {
    if steps == [] then None
    else
      match steps[|steps| - 1]
      case Collect(j, outcome, _) => if j == i then Some(outcome) else LastOutcome(steps[..|steps| - 1], i)
      case NextTick(_) => None
      case _ => LastOutcome(steps[..|steps| - 1], i)
  }

  ghost function OutcomeIn(g: Goroutine): Option<Outcome> {
    match g
    case Spawned => None
    case Storing(metrics, _, _, _) => Some(Returned(metrics))
    case Sweeping(outcome, _, _) => Some(outcome)
    case Finished(outcome) => Some(outcome)
  }

  lemma {:induction false} OutcomeIsKept(c: Config, s: State, steps: seq<Step>, i: nat)
    requires Init(c, s) && Exec(c, s, steps).Some? && i < |c.collectors|
    ensures OutcomeIn(Exec(c, s, steps).value.goroutines[i]) == LastOutcome(steps, i)
  {
    if steps == [] {
    } else {
      OutcomeIsKept(c, s, steps[..|steps| - 1], i);
      StepKeepsOutcome(c, Exec(c, s, steps[..|steps| - 1]).value, steps[|steps| - 1], i);
    }
  }

  lemma {:induction false} StepKeepsOutcome(c: Config, s: State, step: Step, i: nat)
    requires WellFormed(c, s) && Enabled(c, s, step) && i < |c.collectors|
    ensures OutcomeIn(Apply(c, s, step).goroutines[i]) ==
            if step.Collect? && step.i == i then Some(step.outcome)
            else if step.NextTick? then None else OutcomeIn(s.goroutines[i])
  {
  }

  /**
   In every interleaving, once a goroutine has finished its tick, the registry under its prefix holds
   exactly the metrics its collector just returned with their last values, or nothing if it failed or did not run.
   */
  lemma {:induction false} RegistryIsExact(c: Config, s: State, steps: seq<Step>, i: nat)
    requires ValidConfig(c) && Init(c, s) && Exec(c, s, steps).Some? && i < |c.collectors|
    requires Exec(c, s, steps).value.goroutines[i].Finished?
    ensures var outcome := LastOutcome(steps, i);
            outcome.Some? && ViewOf(c, Exec(c, s, steps).value, i) == Expected(c, i, outcome.value)
  {
    RunKeepsInv(c, s, steps);
    OutcomeIsKept(c, s, steps, i);
    var s' := Exec(c, s, steps).value;
    assert Fits(c, i, ViewOf(c, s', i), s'.prev[i], s'.goroutines[i]);
  }

  /** The outcome agrees with leadership, and the health flag with the outcome. */
  ghost predicate Honest(c: Config, s: State, i: nat)
    requires WellFormed(c, s) && i < |c.collectors|
  {
    match s.goroutines[i]
    case Spawned => true
    case Storing(_, _, _, _) => Runs(c, s, i) && s.health[i]
    case Sweeping(o, _, _) => (o.Skipped? <==> !Runs(c, s, i)) && (!o.Skipped? ==> s.health[i] == o.Returned?)
    case Finished(o) => (o.Skipped? <==> !Runs(c, s, i)) && (!o.Skipped? ==> s.health[i] == o.Returned?)
  }

  lemma {:induction false} OutcomeFollowsLeadership(c: Config, s: State, steps: seq<Step>, i: nat)
    requires Init(c, s) && Exec(c, s, steps).Some? && i < |c.collectors|
    ensures Honest(c, Exec(c, s, steps).value, i)
  {
    if steps == [] {
    } else {
      OutcomeFollowsLeadership(c, s, steps[..|steps| - 1], i);
      StepIsHonest(c, Exec(c, s, steps[..|steps| - 1]).value, steps[|steps| - 1], i);
    }
  }

  lemma {:induction false} StepIsHonest(c: Config, s: State, step: Step, i: nat)
    requires WellFormed(c, s) && Enabled(c, s, step) && i < |c.collectors| && Honest(c, s, i)
    ensures Honest(c, Apply(c, s, step), i)
  {
  }

  // ---- what a tick publishes ----

  /** Whether the exporter is the leader in the current tick. */
  ghost function Leads(s: State, steps: seq<Step>): bool {
    if steps == [] then s.leader
    else
      match steps[|steps| - 1]
      case NextTick(leader) => leader
      case _ => Leads(s, steps[..|steps| - 1])
  }

  /** How long the last call of collector i took. */
  ghost function LastSeconds(s: State, steps: seq<Step>, i: nat): real
    requires i < |s.seconds|
  {
    if steps == [] then s.seconds[i]
    else
      match steps[|steps| - 1]
      case Collect(j, outcome, seconds) =>
        if j == i && !outcome.Skipped? then seconds else LastSeconds(s, steps[..|steps| - 1], i)
      case _ => LastSeconds(s, steps[..|steps| - 1], i)
  }

  lemma {:induction false} RunKeepsFlags(c: Config, s: State, steps: seq<Step>, i: nat)
    requires WellFormed(c, s) && Exec(c, s, steps).Some? && i < |c.collectors|
    ensures Exec(c, s, steps).value.leader == Leads(s, steps)
    ensures Exec(c, s, steps).value.seconds[i] == LastSeconds(s, steps, i)
  {
    if steps == [] {
    } else {
      RunKeepsFlags(c, s, steps[..|steps| - 1], i);
      StepKeepsFlags(c, Exec(c, s, steps[..|steps| - 1]).value, steps[|steps| - 1], i);
    }
  }

  lemma {:induction false} StepKeepsFlags(c: Config, s: State, step: Step, i: nat)
    requires WellFormed(c, s) && Enabled(c, s, step) && i < |c.collectors|
    ensures Apply(c, s, step).leader == if step.NextTick? then step.leader else s.leader
    ensures Apply(c, s, step).seconds[i] ==
            if step.Collect? && step.i == i && !step.outcome.Skipped? then step.seconds else s.seconds[i]
  {
  }

  /** In every run a collector is skipped exactly when it needs leadership and the exporter does not have it. */
  lemma {:induction false} SkippedIff(c: Config, s: State, steps: seq<Step>, i: nat)
    requires Init(c, s) && Exec(c, s, steps).Some? && i < |c.collectors| && LastOutcome(steps, i).Some?
    ensures LastOutcome(steps, i) == Some(Skipped) <==> c.collectors[i].leaderOnly && !Leads(s, steps)
  {
    OutcomeFollowsLeadership(c, s, steps, i);
    OutcomeIsKept(c, s, steps, i);
    RunKeepsFlags(c, s, steps, i);
  }

  /** After publishing, each collector that ran has its health and duration registered; the others are left alone. */
  lemma {:induction false} HealthIsPublished(c: Config, s: State, i: nat)
    requires ValidConfig(c) && WellFormed(c, s) && Enabled(c, s, Publish) && i < |c.collectors|
    ensures var r := Apply(c, s, Publish).registry;
            if c.collectors[i].leaderOnly && !s.leader
            then Get(r, HealthName(c, i)) == Get(s.registry, HealthName(c, i)) &&
                 Get(r, SecondsName(c, i)) == Get(s.registry, SecondsName(c, i))
            else Get(r, HealthName(c, i)) == Some(if s.health[i] then 1.0 else 0.0) &&
                 Get(r, SecondsName(c, i)) == Some(s.seconds[i])
  {
    var rs := Reports(c, s);
    forall a, b | 0 <= a < |rs| && 0 <= b < |rs| ensures Apart(rs, a, b) {
      HealthNamesDiffer(c, a, b);
    }
    LeaderNameDiffers(c, i);
    if rs[i].ran {
      PublishedLast(rs, WithLeader(c, s), |rs|, i);
    } else {
      PublishedSkips(rs, WithLeader(c, s), |rs|, i);
    }
  }

  lemma {:induction false} PublishedSkips(rs: seq<Report>, registry: map<string, real>, n: nat, i: nat)
    requires i < |rs| && n <= |rs| && !rs[i].ran
    requires forall a, b | 0 <= a < |rs| && 0 <= b < |rs| :: Apart(rs, a, b)
    ensures Get(Published(rs, registry, n), rs[i].healthName) == Get(registry, rs[i].healthName)
    ensures Get(Published(rs, registry, n), rs[i].secondsName) == Get(registry, rs[i].secondsName)
  {
    if n == 0 {
    } else {
      PublishedSkips(rs, registry, n - 1, i);
      assert Apart(rs, i, n - 1) && Apart(rs, n - 1, i);
    }
  }

  lemma {:induction false} LeaderNameDiffers(c: Config, i: nat)
    requires ValidConfig(c) && i < |c.collectors|
    ensures LeaderName(c) != HealthName(c, i) && LeaderName(c) != SecondsName(c, i)
  {
    OwnLabelsPlain(c, i);
    var x, h, t := "leader", "health", "process_seconds";
    assert '{' !in x && '{' !in h && '{' !in t;
    if LeaderName(c) == HealthName(c, i) { RenderInjective(c.scope, OWN, x, map[], h, OwnLabels(c, i)); }
    if LeaderName(c) == SecondsName(c, i) { RenderInjective(c.scope, OWN, x, map[], t, OwnLabels(c, i)); }
  }

  lemma {:induction false} PublishedOthers(rs: seq<Report>, registry: map<string, real>, n: nat, k: string)
    requires n <= |rs| && forall a | 0 <= a < |rs| :: rs[a].healthName != k && rs[a].secondsName != k
    ensures Get(Published(rs, registry, n), k) == Get(registry, k)
  {
    if n == 0 {
    } else {
      PublishedOthers(rs, registry, n - 1, k);
    }
  }

  /** Leadership is published in cluster scope only. */
  lemma {:induction false} LeaderIsPublished(c: Config, s: State)
    requires ValidConfig(c) && WellFormed(c, s) && Enabled(c, s, Publish)
    ensures Get(Apply(c, s, Publish).registry, LeaderName(c)) ==
            if c.scope == "cluster" then Some(if s.leader then 1.0 else 0.0) else Get(s.registry, LeaderName(c))
  {
    var rs := Reports(c, s);
    forall a | 0 <= a < |rs| ensures rs[a].healthName != LeaderName(c) && rs[a].secondsName != LeaderName(c) {
      LeaderNameDiffers(c, a);
    }
    PublishedOthers(rs, WithLeader(c, s), |rs|, LeaderName(c));
  }

  /** The names under which the loop publishes. */
  lemma {:induction false} OwnNamesPrinted(c: Config, i: nat)
    requires i < |c.collectors|
    ensures LeaderName(c) == "neco_" + c.scope + "_" + "collector" + "_" + "leader"
    ensures HealthName(c, i) == "neco_" + c.scope + "_" + "collector" + "_" + "health" + "{" +
                                ("collector" + "=\"" + c.collectors[i].prefix + "\"") + "}"
    ensures SecondsName(c, i) == "neco_" + c.scope + "_" + "collector" + "_" + "process_seconds" + "{" +
                                 ("collector" + "=\"" + c.collectors[i].prefix + "\"") + "}"
  {
    RenderedBare(c.scope, "collector", "leader");
    RenderedWithOne(c.scope, "collector", "health", "collector", c.collectors[i].prefix);
    RenderedWithOne(c.scope, "collector", "process_seconds", "collector", c.collectors[i].prefix);
  }

  /**
   What a tick leaves behind, from the start of the program: each collector that needs no leadership, or has it,
   shows whether its last call succeeded and how long it took; the others' health is as it was.
   */
  lemma {:induction false} TickIsPublished(c: Config, s: State, steps: seq<Step>, i: nat)
    requires ValidConfig(c) && Init(c, s) && Exec(c, s, steps).Some? && i < |c.collectors|
    requires Enabled(c, Exec(c, s, steps).value, Publish)
    ensures LastOutcome(steps, i).Some?
    ensures var t, outcome := Exec(c, s, steps).value, LastOutcome(steps, i).value;
            var r := Apply(c, t, Publish).registry;
            if c.collectors[i].leaderOnly && !Leads(s, steps)
            then outcome.Skipped? && Get(r, HealthName(c, i)) == Get(t.registry, HealthName(c, i))
            else !outcome.Skipped? && Get(r, HealthName(c, i)) == Some(if outcome.Returned? then 1.0 else 0.0) &&
                 Get(r, SecondsName(c, i)) == Some(LastSeconds(s, steps, i))
  {
    var t := Exec(c, s, steps).value;
    assert t.goroutines[i].Finished?;
    OutcomeIsKept(c, s, steps, i);
    OutcomeFollowsLeadership(c, s, steps, i);
    SkippedIff(c, s, steps, i);
    RunKeepsFlags(c, s, steps, i);
    HealthIsPublished(c, t, i);
  }

  ghost predicate Apart(rs: seq<Report>, a: nat, b: nat)
    requires a < |rs| && b < |rs|
  {
    rs[a].healthName != rs[b].secondsName &&
    (a != b ==> rs[a].healthName != rs[b].healthName && rs[a].secondsName != rs[b].secondsName)
  }

  lemma {:induction false} PublishedLast(rs: seq<Report>, registry: map<string, real>, n: nat, i: nat)
    requires i < n <= |rs| && rs[i].ran
    requires forall a, b | 0 <= a < |rs| && 0 <= b < |rs| :: Apart(rs, a, b)
    ensures var r := Published(rs, registry, n);
            && rs[i].healthName in r && r[rs[i].healthName] == rs[i].health
            && rs[i].secondsName in r && r[rs[i].secondsName] == rs[i].seconds
  {
    assert Apart(rs, i, n - 1) && Apart(rs, n - 1, i);
    if i == n - 1 {
    } else {
      PublishedLast(rs, registry, n - 1, i);
    }
  }

  ghost function OwnLabels(c: Config, i: nat): map<string, string>
    requires i < |c.collectors|
  {
    map["collector" := c.collectors[i].prefix]
  }

  lemma {:induction false} OwnLabelsPlain(c: Config, i: nat)
    requires ValidConfig(c) && i < |c.collectors|
    ensures PlainKeys(OwnLabels(c, i)) && Printable(OwnLabels(c, i))
    ensures '{' !in OWN
  {
    assert '=' !in "collector";
  }

  lemma {:induction false} OwnNameInjective(c: Config, x: string, i: nat, y: string, j: nat)
    requires ValidConfig(c) && i < |c.collectors| && j < |c.collectors| && '{' !in x && '{' !in y
    requires OwnName(c, x, i) == OwnName(c, y, j)
    ensures x == y && i == j
  {
    OwnLabelsPlain(c, i);
    OwnLabelsPlain(c, j);
    RenderInjective(c.scope, OWN, x, OwnLabels(c, i), y, OwnLabels(c, j));
    assert OwnLabels(c, i)["collector"] == OwnLabels(c, j)["collector"];
  }

  lemma {:induction false} OwnNamesDiffer(c: Config, x: string, i: nat, y: string, j: nat)
    requires ValidConfig(c) && i < |c.collectors| && j < |c.collectors| && '{' !in x && '{' !in y
    requires x != y || i != j
    ensures OwnName(c, x, i) != OwnName(c, y, j)
  {
    if OwnName(c, x, i) == OwnName(c, y, j) {
      OwnNameInjective(c, x, i, y, j);
    }
  }

  lemma {:induction false} HealthNamesDiffer(c: Config, i: nat, j: nat)
    requires ValidConfig(c) && i < |c.collectors| && j < |c.collectors|
    ensures HealthName(c, i) != SecondsName(c, j) && SecondsName(c, i) != HealthName(c, j)
    ensures i != j ==> HealthName(c, i) != HealthName(c, j) && SecondsName(c, i) != SecondsName(c, j)
  {
    var h, t := "health", "process_seconds";
    assert |h| != |t|;
    OwnNamesDiffer(c, h, i, t, j);
    OwnNamesDiffer(c, t, i, h, j);
    if i != j {
      OwnNamesDiffer(c, h, i, h, j);
      OwnNamesDiffer(c, t, i, t, j);
    }
  }

  ghost function OwnName(c: Config, name: string, i: nat): string
    requires i < |c.collectors|
  {
    Rendered(c.scope, OWN, name, OwnLabels(c, i))
  }

  // ---- a tick that ends has printed everything ----

  ghost predicate Proper(g: Goroutine) {
    match g
    case Spawned => true
    case Storing(metrics, done, registered, _) =>
      && done <= |metrics| && (registered ==> done < |metrics|)
      && PrintableTo(metrics, if registered then done + 1 else done)
    case Sweeping(outcome, _, _) => outcome.Returned? ==> PrintableTo(outcome.metrics, |outcome.metrics|)
    case Finished(outcome) => outcome.Returned? ==> PrintableTo(outcome.metrics, |outcome.metrics|)
  }

  lemma {:induction false} StepIsProper(c: Config, s: State, step: Step, i: nat)
    requires WellFormed(c, s) && Enabled(c, s, step) && i < |c.collectors| && Proper(s.goroutines[i])
    ensures Proper(Apply(c, s, step).goroutines[i])
  {
    if step.Register? && step.i == i {
      PrintableSnoc(s.goroutines[i].metrics, s.goroutines[i].done);
    }
  }

  /** A goroutine that gets through has returned metrics with printable labels only. */
  lemma {:induction false} FinishedIsPrintable(c: Config, s: State, steps: seq<Step>, i: nat)
    requires Init(c, s) && Exec(c, s, steps).Some? && i < |c.collectors|
    ensures Proper(Exec(c, s, steps).value.goroutines[i])
  {
    if steps == [] {
    } else {
      FinishedIsPrintable(c, s, steps[..|steps| - 1], i);
      StepIsProper(c, Exec(c, s, steps[..|steps| - 1]).value, steps[|steps| - 1], i);
    }
  }

  /** Metrics with different names are all wanted, each with its value, and nothing else is. */
  lemma {:induction false} WantedExact(c: Config, i: nat, metrics: seq<Metric>)
    requires i < |c.collectors|
    requires forall a, b | 0 <= a < b < |metrics| :: c.name(i, metrics[a]) != c.name(i, metrics[b])
    ensures forall k | 0 <= k < |metrics| :: Get(Wanted(c, i, metrics), c.name(i, metrics[k])) == Some(metrics[k].value)
    ensures forall n | n in Wanted(c, i, metrics) :: exists k | 0 <= k < |metrics| :: n == c.name(i, metrics[k])
  {
    if metrics == [] {
    } else {
      var front, last := metrics[..|metrics| - 1], |metrics| - 1;
      assert forall k | 0 <= k < |front| :: front[k] == metrics[k];
      WantedExact(c, i, front);
      forall n | n in Wanted(c, i, metrics) ensures exists k | 0 <= k < |metrics| :: n == c.name(i, metrics[k]) {
        if n == c.name(i, metrics[last]) {
        } else {
          var k :| 0 <= k < |front| && n == c.name(i, front[k]);
          assert metrics[k] == front[k];
        }
      }
    }
  }
}
