/** neco-exporter's start: the collectors named on the command line, and what naming one twice does. */
module CollectorSelection {
  import opened Text
  import opened MetricName
  import opened Exporter

  datatype Candidate = Candidate(scope: string, collector: Collector)

  const CLUSTER := [
    Candidate("cluster", Collector("cert", true)),
    Candidate("cluster", Collector("ciliumid", true)),
    Candidate("cluster", Collector("mock", true)),
    Candidate("cluster", Collector("networkfence", true))]

  const NODE := [
    Candidate("node", Collector("bpf", false)),
    Candidate("node", Collector("cpupinning", false)),
    Candidate("node", Collector("kubelet", false)),
    Candidate("node", Collector("nicirq", false))]

  const CANDIDATES := CLUSTER + NODE

  /** The first candidate with a prefix. */
  function Find(candidates: seq<Candidate>, name: string): (r: Option<Candidate>)
    ensures r.Some? ==> r.value in candidates && r.value.collector.prefix == name
    ensures r.None? <==> forall x | x in candidates :: x.collector.prefix != name
  {
    if candidates == [] then None
    else if candidates[0].collector.prefix == name then Some(candidates[0])
    else Find(candidates[1..], name)
  }

  ghost predicate Offered(candidates: seq<Candidate>, scope: string, name: string) {
    Find(candidates, name).Some? && Find(candidates, name).value.scope == scope
  }

  ghost predicate Selected(candidates: seq<Candidate>, names: seq<string>, cs: seq<Collector>) {
    && |cs| == |names|
    && forall i | 0 <= i < |names| ::
         Find(candidates, names[i]).Some? && cs[i] == Find(candidates, names[i]).value.collector
  }

  /** `broken` are the positions at which a collector's Setup fails. */
  method SelectCollectors(candidates: seq<Candidate>, scope: string, names: seq<string>, broken: set<nat>)
      returns (r: Option<seq<Collector>>)
    ensures r.Some? <==> forall i: nat | i < |names| :: Offered(candidates, scope, names[i]) && i !in broken
    ensures r.Some? ==> Selected(candidates, names, r.value)
  {
    var collectors: seq<Collector> := [];
    for n := 0 to |names|
      invariant forall i: nat | i < n :: Offered(candidates, scope, names[i]) && i !in broken
      invariant |collectors| == n
      invariant forall i | 0 <= i < n :: collectors[i] == Find(candidates, names[i]).value.collector
    {
      var c := Find(candidates, names[n]);
      if c.None? { return None; }
      if c.value.scope != scope { return None; }
      if n in broken { return None; }
      collectors := collectors + [c.value.collector];
    }
    return Some(collectors);
  }

  /** The collectors that exist, by scope; those of the cluster need leadership. */
  lemma {:induction false} CandidatesAre(x: Candidate)
    ensures x in CANDIDATES <==>
              || (x.scope == "cluster" && x.collector.leaderOnly &&
                  x.collector.prefix in {"cert", "ciliumid", "mock", "networkfence"})
              || (x.scope == "node" && !x.collector.leaderOnly &&
                  x.collector.prefix in {"bpf", "cpupinning", "kubelet", "nicirq"})
  {
    assert x in CANDIDATES <==> x in CLUSTER || x in NODE;
    assert x in CLUSTER <==> x == CLUSTER[0] || x == CLUSTER[1] || x == CLUSTER[2] || x == CLUSTER[3];
    assert x in NODE <==> x == NODE[0] || x == NODE[1] || x == NODE[2] || x == NODE[3];
  }

  // ---- which selections meet the exporter's assumption ----

  ghost predicate PrefixOk(p: string) {
    '_' !in p && '{' !in p && !NeedsEscape(p) && p != OWN
  }

  ghost predicate AllOk(candidates: seq<Candidate>) {
    forall k | 0 <= k < |candidates| :: PrefixOk(candidates[k].collector.prefix)
  }

  predicate LowerCase(p: string) {
    forall i | 0 <= i < |p| :: 'a' <= p[i] <= 'z'
  }

  lemma {:induction false} LetterPrefix(p: string)
    requires LowerCase(p) && |p| > 1 && (p[0] != 'c' || p[1] != 'o')
    ensures PrefixOk(p)
  {
    assert OWN[0] == 'c' && OWN[1] == 'o';
  }

  lemma {:induction false} CandidatesOk()
    ensures AllOk(CANDIDATES)
  {
    ClusterOk();
    NodeOk();
    assert forall k | 0 <= k < |CANDIDATES| :: CANDIDATES[k] == if k < 4 then CLUSTER[k] else NODE[k - 4];
  }

  lemma {:induction false} ClusterOk()
    ensures AllOk(CLUSTER)
  {
    LetterPrefix("cert");
    LetterPrefix("ciliumid");
    LetterPrefix("mock");
    LetterPrefix("networkfence");
  }

  lemma {:induction false} NodeOk()
    ensures AllOk(NODE)
  {
    LetterPrefix("bpf");
    LetterPrefix("cpupinning");
    LetterPrefix("kubelet");
    LetterPrefix("nicirq");
  }

  lemma {:induction false} Found(candidates: seq<Candidate>, name: string)
    requires AllOk(candidates) && Find(candidates, name).Some?
    ensures Find(candidates, name).value.collector.prefix == name && PrefixOk(name)
  {
    if candidates[0].collector.prefix != name {
      Found(candidates[1..], name);
    }
  }

  /** A selection meets the assumption on prefixes if and only if no collector is named twice. */
  lemma {:induction false} SelectionValidIff(scope: string, names: seq<string>, cs: seq<Collector>)
    requires '{' !in scope && Selected(CANDIDATES, names, cs)
    ensures ValidConfig(Printing(scope, cs)) <==> NoDup(names)
  {
    CandidatesOk();
    forall i | 0 <= i < |names| ensures cs[i].prefix == names[i] && PrefixOk(names[i]) {
      Found(CANDIDATES, names[i]);
    }
    PrefixesDecide(scope, names, cs);
  }

  lemma {:induction false} PrefixesDecide(scope: string, names: seq<string>, cs: seq<Collector>)
    requires '{' !in scope && |cs| == |names|
    requires forall i | 0 <= i < |names| :: cs[i].prefix == names[i] && PrefixOk(names[i])
    ensures ValidConfig(Printing(scope, cs)) <==> NoDup(names)
  {
    var c := Printing(scope, cs);
    assert forall i | 0 <= i < |cs| :: PrefixOk(c.collectors[i].prefix);
    if ValidConfig(c) {
      forall i, j | 0 <= i < j < |names| ensures names[i] != names[j] {
        assert c.collectors[i].prefix != c.collectors[j].prefix;
      }
    }
  }

  // ---- naming a collector twice ----

  lemma {:induction false} Take(c: Config, s: State, steps: seq<Step>, t: State, step: Step) returns (u: State)
    requires WellFormed(c, s) && Exec(c, s, steps) == Some(t) && Enabled(c, t, step)
    ensures u == Apply(c, t, step) && Exec(c, s, steps + [step]) == Some(u)
  {
    assert (steps + [step])[..|steps|] == steps;
    u := Apply(c, t, step);
  }

  /** A state of a leader that a run has reached. */
  ghost predicate Reached(c: Config, s: State, steps: seq<Step>, t: State) {
    WellFormed(c, s) && WellFormed(c, t) && Exec(c, s, steps) == Some(t) && t.leader
  }

  /** Goroutine i has not been started and keeps no names. */
  ghost predicate Idle(c: Config, t: State, i: nat) {
    WellFormed(c, t) && i < |c.collectors| && t.goroutines[i].Spawned? && t.prev[i] == {}
  }

  /** One goroutine registers the one metric its collector returns. */
  lemma {:induction false} RegisterOne(c: Config, s: State, steps: seq<Step>, t: State, i: nat, m: Metric)
      returns (more: seq<Step>, u: State)
    requires Reached(c, s, steps, t) && Idle(c, t, i) && Printable(m.labels)
    ensures Reached(c, s, steps + more, u) && u.published == t.published && u.prev == t.prev
    ensures u.goroutines == t.goroutines[i := Storing([m], 0, true, {})]
  {
    var collect := Collect(i, Returned([m]), 0.0);
    var t1 := Take(c, s, steps, t, collect);
    assert t1.goroutines[i] == Storing([m], 0, false, {});
    u := Take(c, s, steps + [collect], t1, Register(i));
    more := [collect, Register(i)];
    assert steps + more == steps + [collect] + [Register(i)];
  }

  /** And sets it. */
  lemma {:induction false} StoreOne(c: Config, s: State, steps: seq<Step>, t: State, i: nat, m: Metric)
      returns (more: seq<Step>, u: State)
    requires Reached(c, s, steps, t) && Idle(c, t, i) && Printable(m.labels)
    ensures Reached(c, s, steps + more, u) && u.published == t.published && u.prev == t.prev
    ensures u.goroutines == t.goroutines[i := Storing([m], 1, false, {c.name(i, m)})]
  {
    more, u := RegisterOne(c, s, steps, t, i, m);
    u := Take(c, s, steps + more, u, SetValue(i));
    assert u.goroutines[i] == Storing([m], 1, false, {c.name(i, m)}) && u.prev[i] == {};
    assert u.prev == t.prev;
    assert steps + (more + [SetValue(i)]) == steps + more + [SetValue(i)];
    more := more + [SetValue(i)];
  }

  /** And finishes, with nothing to sweep. */
  lemma {:induction false} FinishOne(c: Config, s: State, steps: seq<Step>, t: State, i: nat, m: Metric)
      returns (more: seq<Step>, u: State)
    requires Reached(c, s, steps, t) && Idle(c, t, i) && Printable(m.labels)
    ensures Reached(c, s, steps + more, u) && u.published == t.published
    ensures u.goroutines == t.goroutines[i := Finished(Returned([m]))] && u.prev == t.prev[i := {c.name(i, m)}]
  {
    more, u := StoreOne(c, s, steps, t, i, m);
    u := Take(c, s, steps + more, u, BeginSweep(i));
    u := Take(c, s, steps + more + [BeginSweep(i)], u, Finish(i));
    assert steps + (more + [BeginSweep(i), Finish(i)]) == steps + more + [BeginSweep(i)] + [Finish(i)];
    more := more + [BeginSweep(i), Finish(i)];
  }

  /** One goroutine's call fails, and it finishes. */
  lemma {:induction false} FailOne(c: Config, s: State, steps: seq<Step>, t: State, i: nat)
      returns (more: seq<Step>, u: State)
    requires Reached(c, s, steps, t) && Idle(c, t, i)
    ensures Reached(c, s, steps + more, u) && u.published == t.published && u.prev == t.prev
    ensures u.goroutines == t.goroutines[i := Finished(Failed)]
  {
    var collect := Collect(i, Failed, 0.0);
    var t1 := Take(c, s, steps, t, collect);
    u := Take(c, s, steps + [collect], t1, Finish(i));
    more := [collect, Finish(i)];
    assert steps + more == steps + [collect] + [Finish(i)];
  }

  /** The goroutines from k on, all but i, fail one after the other. */
  lemma {:induction false} FailOthers(c: Config, s: State, steps: seq<Step>, t: State, i: nat, k: nat)
      returns (more: seq<Step>, u: State)
    requires Reached(c, s, steps, t) && k <= |c.collectors|
    requires forall x: nat | x < |c.collectors| :: if x < k || x == i then t.goroutines[x].Finished? else Idle(c, t, x)
    ensures Reached(c, s, steps + more, u) && u.published == t.published && u.prev == t.prev && AllFinished(u)
    decreases |c.collectors| - k
  {
    if k == |c.collectors| {
      more, u := [], t;
      assert steps + [] == steps;
    } else if k == i {
      more, u := FailOthers(c, s, steps, t, i, k + 1);
    } else {
      var first, v := FailOne(c, s, steps, t, k);
      forall x: nat | x < |c.collectors|
        ensures if x < k + 1 || x == i then v.goroutines[x].Finished? else Idle(c, v, x)
      {
        assert if x < k || x == i then t.goroutines[x].Finished? else Idle(c, t, x);
      }
      var rest;
      rest, u := FailOthers(c, s, steps + first, v, i, k + 1);
      more := first + rest;
      assert steps + more == steps + first + rest;
    }
  }

  /** The loop publishes its own metrics. */
  lemma {:induction false} EndTick(c: Config, s: State, steps: seq<Step>, t: State) returns (u: State)
    requires Reached(c, s, steps, t) && AllFinished(t) && !t.published
    ensures Reached(c, s, steps + [Publish], u) && u.published && u.prev == t.prev && u.goroutines == t.goroutines
  {
    u := Take(c, s, steps, t, Publish);
  }

  /** The tick ends and the next one begins. */
  lemma {:induction false} TurnOver(c: Config, s: State, steps: seq<Step>, t: State)
      returns (more: seq<Step>, u: State)
    requires Reached(c, s, steps, t) && AllFinished(t) && !t.published
    ensures Reached(c, s, steps + more, u) && !u.published && u.prev == t.prev
    ensures forall x | 0 <= x < |u.goroutines| :: u.goroutines[x].Spawned?
  {
    var v := EndTick(c, s, steps, t);
    u := Take(c, s, steps + [Publish], v, NextTick(true));
    more := [Publish, NextTick(true)];
    assert steps + more == steps + [Publish] + [NextTick(true)];
  }

  /** A first tick in which only collector i returns a metric. */
  lemma {:induction false} FirstTick(c: Config, s: State, i: nat, m: Metric) returns (steps: seq<Step>, t: State)
    requires Init(c, s) && s.leader && i < |c.collectors| && Printable(m.labels)
    ensures Reached(c, s, steps, t) && !t.published && t.prev == s.prev[i := {c.name(i, m)}]
    ensures forall x | 0 <= x < |t.goroutines| :: t.goroutines[x].Spawned?
  {
    assert Exec(c, s, []) == Some(s);
    var u, more;
    steps, u := FinishOne(c, s, [], s, i, m);
    assert [] + steps == steps;
    more, u := FailOthers(c, s, steps, u, i, 0);
    steps := steps + more;
    more, t := TurnOver(c, s, steps, u);
    steps := steps + more;
  }

  /**
   Two goroutines among any number that share their names: the one whose call fails unregisters the metric that
   the other has just returned.
   */
  lemma {:induction false} TwinLosesMetric(c: Config, s: State, i: nat, j: nat, m: Metric) returns (steps: seq<Step>)
    requires Init(c, s) && s.leader && i < |c.collectors| && j < |c.collectors| && i != j
    requires Printable(m.labels) && c.name(i, m) == c.name(j, m)
    ensures Exec(c, s, steps).Some?
    ensures var t := Exec(c, s, steps).value;
            t.goroutines[j] == Finished(Returned([m])) && c.name(j, m) !in ViewOf(c, t, j)
  {
    var t, more;
    steps, t := FirstTick(c, s, i, m);
    t := Take(c, s, steps, t, Collect(i, Failed, 0.0));
    steps := steps + [Collect(i, Failed, 0.0)];
    more, t := FinishOne(c, s, steps, t, j, m);
    steps := steps + more;
    t := Take(c, s, steps, t, Unregister(i, c.name(j, m)));
    steps := steps + [Unregister(i, c.name(j, m))];
  }

  /** A finished goroutine has exactly the metrics its collector just returned in the registry. */
  ghost predicate Exact(c: Config, s: State, steps: seq<Step>, i: nat) {
    Init(c, s) && Exec(c, s, steps).Some? && i < |c.collectors| &&
    Exec(c, s, steps).value.goroutines[i].Finished? ==>
      && LastOutcome(steps, i).Some?
      && ViewOf(c, Exec(c, s, steps).value, i) == Expected(c, i, LastOutcome(steps, i).value)
  }

  /** That holds for every goroutine in every run. */
  ghost predicate AlwaysExact(c: Config) {
    forall s: State, steps: seq<Step>, i: nat :: Exact(c, s, steps, i)
  }

  ghost function AtStart(n: nat): State {
    State(true, map[], seq(n, _ => {}), seq(n, _ => Spawned), seq(n, _ => false), seq(n, _ => 0.0), false)
  }

  /** A name given twice breaks it. */
  lemma {:induction false} TwinsAreInexact(scope: string, cs: seq<Collector>, i: nat, j: nat)
    requires i < j < |cs| && cs[i].prefix == cs[j].prefix
    ensures !AlwaysExact(Printing(scope, cs))
  {
    var c, s, m := Printing(scope, cs), AtStart(|cs|), Metric("up", map[], 1.0);
    assert Printed(c, i, m) && Printed(c, j, m);
    assert Init(c, s);
    var steps := TwinLosesMetric(c, s, i, j, m);
    OutcomeIsKept(c, s, steps, j);
    assert c.name(j, m) in Wanted(c, j, [m]);
    assert !Exact(c, s, steps, j);
  }

  /** The registry is exact in every run of a selection if and only if no collector is named twice. */
  lemma {:induction false} SelectionExactIff(scope: string, names: seq<string>, cs: seq<Collector>)
    requires '{' !in scope && Selected(CANDIDATES, names, cs)
    ensures AlwaysExact(Printing(scope, cs)) <==> NoDup(names)
  {
    var c := Printing(scope, cs);
    SelectionValidIff(scope, names, cs);
    if NoDup(names) {
      forall s: State, steps: seq<Step>, i: nat ensures Exact(c, s, steps, i) {
        if Init(c, s) && Exec(c, s, steps).Some? && i < |c.collectors| &&
           Exec(c, s, steps).value.goroutines[i].Finished?
        {
          RegistryIsExact(c, s, steps, i);
        }
      }
    } else {
      var i, j :| 0 <= i < j < |names| && names[i] == names[j];
      TwinsAreInexact(scope, cs, i, j);
    }
  }
}
