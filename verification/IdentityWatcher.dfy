/**
 neco-exporter's Cilium identity watcher. The informer's store changes first; its events are delivered
 later, in order, one at a time, and each delivery lists the store as it is by then.
 */
module IdentityWatcher {
  import opened Text

  const NAMESPACE_LABEL := "k8s:io.kubernetes.pod.namespace"

  /** A value under security-labels is a string or something else. */
  datatype Value = Str(text: string) | NotStr

  datatype SecurityLabels = Absent | NotMap | Labels(values: map<string, Value>)

  datatype Identity = Identity(uid: string, labels: SecurityLabels)

  datatype Info = Info(uid: string, labels: map<string, string>)

  /** None is the error of unstructured.NestedString. */
  function NamespaceOf(id: Identity): Option<string> {
    match id.labels
    case Absent => Some("(null)")
    case NotMap => None
    case Labels(values) =>
      if NAMESPACE_LABEL !in values then Some("(null)")
      else if values[NAMESPACE_LABEL].Str? then Some(values[NAMESPACE_LABEL].text)
      else None
  }

  /** None is the error of unstructured.NestedStringMap; missing labels read as none. */
  function LabelMap(labels: SecurityLabels): Option<map<string, string>> {
    match labels
    case Absent => Some(map[])
    case NotMap => None
    case Labels(values) =>
      if forall k | k in values :: values[k].Str? then Some(map k | k in values :: values[k].text) else None
  }

  /** What `identities` should hold for an object, if anything. */
  ghost function InfoOf(id: Identity): Option<Info> {
    if NamespaceOf(id).None? || LabelMap(id.labels).None? then None
    else Some(Info(id.uid, LabelMap(id.labels).value))
  }

  /** indexByNamespace: the objects that a listing by namespace returns. */
  function Listed(store: map<string, Identity>, ns: string): set<string> {
    set name | name in store && NamespaceOf(store[name]) == Some(ns)
  }

  datatype Event = Event(name: string, id: Identity, deleted: bool)

  /** The watcher's maps, changed under its mutex. */
  class Watcher {
    var identityCount: map<string, nat>
    var identities: map<string, Info>

    constructor ()
      ensures identityCount == map[] && identities == map[]
    {
      identityCount, identities := map[], map[];
    }

    /** `listed` is the number of items the List call returned; a failed List counts as none. */
    method Update(e: Event, listed: Option<nat>)
      modifies this
      ensures Cache(identityCount, identities) ==
              Updated(Cache(old(identityCount), old(identities)), e, if listed.Some? then listed.value else 0)
    {
      var ns := NamespaceOf(e.id);
      if ns.None? { return; }
      var info: Option<Info> := None;
      if !e.deleted {
        var labels := LabelMap(e.id.labels);
        if labels.Some? {
          info := Some(Info(e.id.uid, labels.value));
        }
      }
      var items := if listed.Some? then listed.value else 0;
      if items > 0 {
        identityCount := identityCount[ns.value := items];
      } else {
        identityCount := identityCount - {ns.value};
      }
      if info.Some? {
        identities := identities[e.name := info.value];
      } else {
        identities := identities - {e.name};
      }
    }
  }

  datatype Cache = Cache(counts: map<string, nat>, identities: map<string, Info>)

  ghost function Put<V>(m: map<string, V>, k: string, v: Option<V>): map<string, V> {
    if v.Some? then m[k := v.value] else m - {k}
  }

  ghost function Updated(c: Cache, e: Event, items: nat): Cache {
    var ns := NamespaceOf(e.id);
    if ns.None? then c
    else Cache(Put(c.counts, ns.value, if items > 0 then Some(items) else None),
               Put(c.identities, e.name, if e.deleted then None else InfoOf(e.id)))
  }

  // ---- the informer and the watcher together ----

  /** The event being handled, with the count its List call returned. */
  datatype Flight = Flight(event: Event, items: nat)

  datatype System = System(store: map<string, Identity>, queue: seq<Event>, flight: Option<Flight>, cache: Cache)

  datatype Step =
    | Add(name: string, id: Identity)
    | Change(name: string, id: Identity)
    | Remove(name: string)
    | Resync(name: string)
    | List(ok: bool)
    | Commit

  ghost predicate Enabled(s: System, step: Step) {
    match step
    case Add(name, _) => name !in s.store
    case Change(name, _) => name in s.store
    case Remove(name) => name in s.store
    case Resync(name) => name in s.store
    case List(_) => s.flight.None? && s.queue != []
    case Commit => s.flight.Some?
  }

  ghost function Apply(s: System, step: Step): System
    requires Enabled(s, step)
  {
    match step
    case Add(name, id) => s.(store := s.store[name := id], queue := s.queue + [Event(name, id, false)])
    case Change(name, id) => s.(store := s.store[name := id], queue := s.queue + [Event(name, id, false)])
    case Remove(name) => s.(store := s.store - {name}, queue := s.queue + [Event(name, s.store[name], true)])
    case Resync(name) => s.(queue := s.queue + [Event(name, s.store[name], false)])
    case List(ok) =>
      var e := s.queue[0];
      var items := if ok && NamespaceOf(e.id).Some? then |Listed(s.store, NamespaceOf(e.id).value)| else 0;
      s.(queue := s.queue[1..], flight := Some(Flight(e, items)))
    case Commit =>
      s.(flight := None, cache := Updated(s.cache, s.flight.value.event, s.flight.value.items))
  }

  // ---- the invariant ----

  /** The cached count of a namespace is n; no entry stands for zero. */
  ghost predicate CountIs(c: Cache, ns: string, n: int) {
    Get(c.counts, ns) == if n > 0 then Some(n) else None
  }

  ghost predicate CountExact(c: Cache, store: map<string, Identity>, ns: string) {
    CountIs(c, ns, |Listed(store, ns)|)
  }

  /** An undelivered event that will list the namespace. */
  ghost predicate Awaits(queue: seq<Event>, ns: string) {
    exists i | 0 <= i < |queue| :: NamespaceOf(queue[i].id) == Some(ns)
  }

  /** The namespace's count is off by `drift`, or will be set when the flight or a queued event lands. */
  ghost predicate CountCovered(s: System, ns: string, drift: int) {
    var n := |Listed(s.store, ns)| + drift;
    || Awaits(s.queue, ns)
    || (s.flight.Some? && NamespaceOf(s.flight.value.event.id) == Some(ns) && s.flight.value.items == n)
    || (0 <= n && CountIs(s.cache, ns, n) &&
        (s.flight.Some? ==> NamespaceOf(s.flight.value.event.id) != Some(ns)))
  }

  /** The drift after a step: a change that takes an object out adds one, a listing for the namespace starts afresh. */
  ghost function DriftAfter(s: System, step: Step, ns: string, drift: int): int
    requires Enabled(s, step)
  {
    match step
    case Change(name, id) =>
      if NamespaceOf(s.store[name]) == Some(ns) && NamespaceOf(id) != Some(ns) then drift + 1 else drift
    case List(ok) =>
      if NamespaceOf(s.queue[0].id) != Some(ns) then drift else if ok then 0 else -|Listed(s.store, ns)|
    case _ => drift
  }

  ghost function EffectOf(e: Event): Option<Info> {
    if e.deleted then None else InfoOf(e.id)
  }

  /** What `identities` will hold for a name once the queue has been delivered. */
  ghost function Eventual(queue: seq<Event>, name: string, now: Option<Info>): Option<Info> {
    if queue == [] then now
    else
      var e := queue[|queue| - 1];
      if e.name == name && NamespaceOf(e.id).Some? then EffectOf(e)
      else Eventual(queue[..|queue| - 1], name, now)
  }

  ghost function InFlight(s: System): seq<Event> {
    if s.flight.Some? then [s.flight.value.event] else []
  }

  ghost function StoredInfo(store: map<string, Identity>, name: string): Option<Info> {
    if name in store then InfoOf(store[name]) else None
  }

  /** What is on its way sets the name to the store's info, or leaves an info that is no longer in the store. */
  ghost predicate NameCovered(s: System, name: string, stranded: bool) {
    var last := Eventual(InFlight(s) + s.queue, name, Get(s.cache.identities, name));
    if stranded then last.Some? && StoredInfo(s.store, name) == None else last == StoredInfo(s.store, name)
  }

  /** An event about an object with no readable namespace is ignored, so a recorded info is left behind. */
  ghost predicate StrandedAfter(s: System, step: Step, name: string, stranded: bool)
    requires Enabled(s, step)
  {
    if step.List? || step.Commit? || step.name != name then stranded
    else if step.Remove? || step.Resync? then stranded && NamespaceOf(s.store[name]).None?
    else NamespaceOf(step.id).None? && (stranded || StoredInfo(s.store, name).Some?)
  }

  ghost predicate Init(s: System) {
    s == System(map[], [], None, Cache(map[], map[]))
  }

  /** A change of the store under one name changes the listing by that name only. */
  lemma {:induction false} ListedPut(store: map<string, Identity>, name: string, id: Identity, ns: string)
    ensures var before, after := Listed(store, ns), Listed(store[name := id], ns);
            after == if NamespaceOf(id) == Some(ns) then before + {name} else before - {name}
    ensures NamespaceOf(id) != Some(ns) && !(name in store && NamespaceOf(store[name]) == Some(ns)) ==>
              Listed(store[name := id], ns) == Listed(store, ns)
  {
  }

  lemma {:induction false} ListedRemoved(store: map<string, Identity>, name: string, ns: string)
    requires name in store && NamespaceOf(store[name]) != Some(ns)
    ensures Listed(store - {name}, ns) == Listed(store, ns)
  {
  }

  lemma {:induction false} AwaitsSnoc(queue: seq<Event>, e: Event, ns: string)
    ensures Awaits(queue, ns) || NamespaceOf(e.id) == Some(ns) ==> Awaits(queue + [e], ns)
  {
    var q := queue + [e];
    if Awaits(queue, ns) {
      var i :| 0 <= i < |queue| && NamespaceOf(queue[i].id) == Some(ns);
      assert q[i] == queue[i];
    } else {
      assert q[|queue|] == e;
    }
  }

  lemma {:induction false} CountStep(s: System, step: Step, ns: string, drift: int)
    requires Enabled(s, step) && CountCovered(s, ns, drift)
    ensures CountCovered(Apply(s, step), ns, DriftAfter(s, step, ns, drift))
  {
    match step {
      case Add(name, id) => PutKeepsCount(s, name, id, ns, drift);
      case Change(name, id) => PutKeepsCount(s, name, id, ns, drift);
      case Remove(name) =>
        AwaitsSnoc(s.queue, Event(name, s.store[name], true), ns);
        if NamespaceOf(s.store[name]) != Some(ns) { ListedRemoved(s.store, name, ns); }
      case Resync(name) => AwaitsSnoc(s.queue, Event(name, s.store[name], false), ns);
      case List(ok) => ListKeepsCount(s, ok, ns, drift);
      case Commit =>
    }
  }

  lemma {:induction false} PutKeepsCount(s: System, name: string, id: Identity, ns: string, drift: int)
    requires CountCovered(s, ns, drift)
    ensures var out := name in s.store && NamespaceOf(s.store[name]) == Some(ns) && NamespaceOf(id) != Some(ns);
            CountCovered(s.(store := s.store[name := id], queue := s.queue + [Event(name, id, false)]), ns,
                         if out then drift + 1 else drift)
  {
    AwaitsSnoc(s.queue, Event(name, id, false), ns);
    ListedPut(s.store, name, id, ns);
    assert name in s.store && NamespaceOf(s.store[name]) == Some(ns) ==> name in Listed(s.store, ns);
  }

  lemma {:induction false} ListKeepsCount(s: System, ok: bool, ns: string, drift: int)
    requires Enabled(s, List(ok)) && CountCovered(s, ns, drift)
    ensures CountCovered(Apply(s, List(ok)), ns, DriftAfter(s, List(ok), ns, drift))
  {
    if Awaits(s.queue, ns) && NamespaceOf(s.queue[0].id) != Some(ns) {
      var i :| 0 <= i < |s.queue| && NamespaceOf(s.queue[i].id) == Some(ns);
      assert Apply(s, List(ok)).queue[i - 1] == s.queue[i];
    }
  }

  lemma {:induction false} EventualSnoc(queue: seq<Event>, e: Event, name: string, now: Option<Info>)
    ensures Eventual(queue + [e], name, now) ==
            if e.name == name && NamespaceOf(e.id).Some? then EffectOf(e) else Eventual(queue, name, now)
  {
    assert (queue + [e])[..|queue|] == queue;
  }

  lemma {:induction false} EventualCons(e: Event, queue: seq<Event>, name: string, now: Option<Info>)
    ensures Eventual([e] + queue, name, now) ==
            Eventual(queue, name, if e.name == name && NamespaceOf(e.id).Some? then EffectOf(e) else now)
  {
    if queue == [] {
      assert [e] + queue == [e];
    } else {
      var front, last := queue[..|queue| - 1], queue[|queue| - 1];
      EventualCons(e, front, name, now);
      assert [e] + queue == ([e] + front) + [last];
      EventualSnoc([e] + front, last, name, now);
    }
  }

  /** The same events on their way to the same cache come to the same. */
  lemma {:induction false} SamePending(s: System, s': System, name: string, stranded: bool)
    requires NameCovered(s, name, stranded) && InFlight(s) + s.queue == InFlight(s') + s'.queue
    requires s'.store == s.store && s'.cache == s.cache
    ensures NameCovered(s', name, stranded)
  {
  }

  lemma {:induction false} ListKeepsPending(s: System, ok: bool)
    requires Enabled(s, List(ok))
    ensures var s' := Apply(s, List(ok)); InFlight(s) + s.queue == InFlight(s') + s'.queue
  {
    assert [] + s.queue == s.queue && [s.queue[0]] + s.queue[1..] == s.queue;
  }

  lemma {:induction false} ListKeepsNames(s: System, ok: bool, name: string, stranded: bool)
    requires Enabled(s, List(ok)) && NameCovered(s, name, stranded)
    ensures NameCovered(Apply(s, List(ok)), name, stranded)
  {
    ListKeepsPending(s, ok);
    SamePending(s, Apply(s, List(ok)), name, stranded);
  }

  lemma {:induction false} CommitKeepsNames(s: System, name: string, stranded: bool)
    requires Enabled(s, Commit) && NameCovered(s, name, stranded)
    ensures NameCovered(Apply(s, Commit), name, stranded)
  {
    var e, now := s.flight.value.event, Get(s.cache.identities, name);
    assert InFlight(Apply(s, Commit)) + s.queue == s.queue;
    assert InFlight(s) + s.queue == [e] + s.queue;
    EventualCons(e, s.queue, name, now);
    CommitSets(s, name);
  }

  lemma {:induction false} CommitSets(s: System, name: string)
    requires Enabled(s, Commit)
    ensures var e := s.flight.value.event;
            Get(Apply(s, Commit).cache.identities, name) ==
            if e.name == name && NamespaceOf(e.id).Some? then EffectOf(e) else Get(s.cache.identities, name)
  {
  }

  lemma {:induction false} NameStep(s: System, step: Step, name: string, stranded: bool)
    requires Enabled(s, step) && NameCovered(s, name, stranded)
    ensures NameCovered(Apply(s, step), name, StrandedAfter(s, step, name, stranded))
  {
    if step.List? {
      ListKeepsNames(s, step.ok, name, stranded);
    } else if step.Commit? {
      CommitKeepsNames(s, name, stranded);
    } else {
      var s' := Apply(s, step);
      EventualQueued(s, s', s'.queue[|s'.queue| - 1], name);
    }
  }

  /** One more queued event decides for its name, if its namespace can be read. */
  lemma {:induction false} EventualQueued(s: System, s': System, e: Event, name: string)
    requires s' == s.(store := s'.store, queue := s.queue + [e])
    ensures var now := Get(s.cache.identities, name);
            Eventual(InFlight(s') + s'.queue, name, now) ==
            if e.name == name && NamespaceOf(e.id).Some? then EffectOf(e)
            else Eventual(InFlight(s) + s.queue, name, now)
  {
    var pending := InFlight(s) + s.queue;
    assert InFlight(s') + s'.queue == pending + [e];
    EventualSnoc(pending, e, name, Get(s.cache.identities, name));
  }

  // ---- whole runs ----

  /** The state after some steps, if each could be taken. */
  ghost function Exec(s: System, steps: seq<Step>): Option<System> {
    if steps == [] then Some(s)
    else
      var before := Exec(s, steps[..|steps| - 1]);
      var step := steps[|steps| - 1];
      if before.None? || !Enabled(before.value, step) then None else Some(Apply(before.value, step))
  }

  /**
   How far a namespace's count is off the store after a run: the changes that took an object out of it since the
   last listing for it, less the objects it had at that listing if the listing failed.
   */
  ghost function Drift(s: System, steps: seq<Step>, ns: string): int
    requires Exec(s, steps).Some?
  {
    if steps == [] then 0
    else
      var front := steps[..|steps| - 1];
      DriftAfter(Exec(s, front).value, steps[|steps| - 1], ns, Drift(s, front, ns))
  }

  /** The object under a name lost its readable namespace with its info recorded, and no event has corrected that. */
  ghost predicate Stranded(s: System, steps: seq<Step>, name: string)
    requires Exec(s, steps).Some?
  {
    if steps == [] then false
    else
      var front := steps[..|steps| - 1];
      StrandedAfter(Exec(s, front).value, steps[|steps| - 1], name, Stranded(s, front, name))
  }

  lemma {:induction false} RunKeepsCounts(s: System, steps: seq<Step>, ns: string)
    requires Init(s) && Exec(s, steps).Some?
    ensures CountCovered(Exec(s, steps).value, ns, Drift(s, steps, ns))
  {
    if steps == [] {
      assert Listed(s.store, ns) == {};
    } else {
      var front := steps[..|steps| - 1];
      RunKeepsCounts(s, front, ns);
      CountStep(Exec(s, front).value, steps[|steps| - 1], ns, Drift(s, front, ns));
    }
  }

  lemma {:induction false} RunKeepsNames(s: System, steps: seq<Step>, name: string)
    requires Init(s) && Exec(s, steps).Some?
    ensures NameCovered(Exec(s, steps).value, name, Stranded(s, steps, name))
  {
    if steps == [] {
      assert InFlight(s) + s.queue == [];
    } else {
      var front := steps[..|steps| - 1];
      RunKeepsNames(s, front, name);
      NameStep(Exec(s, front).value, steps[|steps| - 1], name, Stranded(s, front, name));
    }
  }

  /** At any time a namespace's count is the store's plus the drift, unless an event for it is still on its way. */
  lemma {:induction false} CountDriftsOrPending(s: System, steps: seq<Step>, ns: string)
    requires Init(s) && Exec(s, steps).Some?
    ensures var t, n := Exec(s, steps).value, |Listed(Exec(s, steps).value.store, ns)| + Drift(s, steps, ns);
            (0 <= n && CountIs(t.cache, ns, n)) || Awaits(InFlight(t) + t.queue, ns)
  {
    RunKeepsCounts(s, steps, ns);
    var t := Exec(s, steps).value;
    var all := InFlight(t) + t.queue;
    if Awaits(t.queue, ns) {
      var i :| 0 <= i < |t.queue| && NamespaceOf(t.queue[i].id) == Some(ns);
      assert all[|InFlight(t)| + i] == t.queue[i];
    } else if t.flight.Some? {
      assert all[0] == t.flight.value.event;
    }
  }

  /** An event about a name that is not ignored. */
  ghost predicate Concerns(queue: seq<Event>, name: string) {
    exists i | 0 <= i < |queue| :: queue[i].name == name && NamespaceOf(queue[i].id).Some?
  }

  lemma {:induction false} EventualUntouched(queue: seq<Event>, name: string, now: Option<Info>)
    requires !Concerns(queue, name)
    ensures Eventual(queue, name, now) == now
  {
    if queue == [] {
    } else {
      var front := queue[..|queue| - 1];
      assert forall i | 0 <= i < |front| :: front[i] == queue[i];
      EventualUntouched(front, name, now);
    }
  }

  /** At any time a name's info is the store's, or stranded, or an event about it is still on its way. */
  lemma {:induction false} InfoExactOrPending(s: System, steps: seq<Step>, name: string)
    requires Init(s) && Exec(s, steps).Some?
    ensures var t := Exec(s, steps).value;
            || Get(t.cache.identities, name) == StoredInfo(t.store, name)
            || Stranded(s, steps, name) || Concerns(InFlight(t) + t.queue, name)
  {
    RunKeepsNames(s, steps, name);
    var t := Exec(s, steps).value;
    if !Concerns(InFlight(t) + t.queue, name) {
      EventualUntouched(InFlight(t) + t.queue, name, Get(t.cache.identities, name));
    }
  }

  lemma {:induction false} PrefixRuns(s: System, steps: seq<Step>, n: nat)
    requires Exec(s, steps).Some? && n <= |steps|
    ensures Exec(s, steps[..n]).Some?
  {
    if n == |steps| {
      assert steps[..n] == steps;
    } else {
      PrefixRuns(s, steps[..|steps| - 1], n);
      assert steps[..|steps| - 1][..n] == steps[..n];
    }
  }

  ghost predicate Quiescent(s: System) {
    s.queue == [] && s.flight.None?
  }

  /** With nothing on its way a namespace's count is exact if and only if there is no drift. */
  lemma {:induction false} CountExactIff(s: System, steps: seq<Step>, ns: string)
    requires Init(s) && Exec(s, steps).Some? && Quiescent(Exec(s, steps).value)
    ensures var t := Exec(s, steps).value;
            && CountIs(t.cache, ns, |Listed(t.store, ns)| + Drift(s, steps, ns))
            && (CountExact(t.cache, t.store, ns) <==> Drift(s, steps, ns) == 0)
  {
    CountDriftsOrPending(s, steps, ns);
  }

  /** And the info of a name is the store's if and only if it is not stranded. */
  lemma {:induction false} InfoExactIff(s: System, steps: seq<Step>, name: string)
    requires Init(s) && Exec(s, steps).Some? && Quiescent(Exec(s, steps).value)
    ensures var t := Exec(s, steps).value;
            Get(t.cache.identities, name) == StoredInfo(t.store, name) <==> !Stranded(s, steps, name)
  {
    RunKeepsNames(s, steps, name);
    var t := Exec(s, steps).value;
    assert InFlight(t) + t.queue == [];
  }

  /** Nothing in the run has put the maps off: no count drifts and no name is stranded. */
  ghost predicate OnCourse(s: System, steps: seq<Step>)
    requires Exec(s, steps).Some?
  {
    (forall ns: string :: Drift(s, steps, ns) == 0) && (forall name: string :: !Stranded(s, steps, name))
  }

  ghost predicate MapsExact(c: Cache, store: map<string, Identity>) {
    && (forall ns: string :: CountExact(c, store, ns))
    && (forall name: string :: Get(c.identities, name) == StoredInfo(store, name))
  }

  /** With nothing on its way both maps are exact if and only if the run is on course. */
  lemma {:induction false} QuiescentIsExact(s: System, steps: seq<Step>)
    requires Init(s) && Exec(s, steps).Some? && Quiescent(Exec(s, steps).value)
    ensures var t := Exec(s, steps).value; MapsExact(t.cache, t.store) <==> OnCourse(s, steps)
  {
    var t := Exec(s, steps).value;
    forall ns: string
      ensures CountExact(t.cache, t.store, ns) <==> Drift(s, steps, ns) == 0
    {
      CountExactIff(s, steps, ns);
    }
    forall name: string
      ensures Get(t.cache.identities, name) == StoredInfo(t.store, name) <==> !Stranded(s, steps, name)
    {
      InfoExactIff(s, steps, name);
    }
  }

  // ---- the usual cluster ----

  /** The assumptions on a step: a listing succeeds, and an object that changes stays in its namespace. */
  ghost predicate Usual(s: System, step: Step) {
    match step
    case Change(name, id) => name in s.store ==> NamespaceOf(id) == NamespaceOf(s.store[name])
    case List(ok) => ok
    case _ => true
  }

  ghost predicate UsualRun(s: System, steps: seq<Step>)
    requires Exec(s, steps).Some?
  {
    if steps == [] then true
    else
      var front := steps[..|steps| - 1];
      UsualRun(s, front) && Usual(Exec(s, front).value, steps[|steps| - 1])
  }

  /** A usual run is on course. */
  lemma {:induction false} UsualIsOnCourse(s: System, steps: seq<Step>)
    requires Exec(s, steps).Some? && UsualRun(s, steps)
    ensures OnCourse(s, steps)
  {
    if steps == [] {
    } else {
      var front := steps[..|steps| - 1];
      UsualIsOnCourse(s, front);
      forall ns: string ensures Drift(s, steps, ns) == 0 {
        assert Drift(s, front, ns) == 0;
      }
      forall name: string ensures !Stranded(s, steps, name) {
        assert !Stranded(s, front, name);
      }
    }
  }

  /** In a usual run each count is exact unless an event for the namespace is still on its way. */
  lemma {:induction false} CountExactOrPending(s: System, steps: seq<Step>, ns: string)
    requires Init(s) && Exec(s, steps).Some? && UsualRun(s, steps)
    ensures var t := Exec(s, steps).value;
            CountExact(t.cache, t.store, ns) || Awaits(InFlight(t) + t.queue, ns)
  {
    UsualIsOnCourse(s, steps);
    CountDriftsOrPending(s, steps, ns);
  }

  // ---- the failing side ----

  ghost function In(ns: string): Identity {
    Identity("uid", Labels(map[NAMESPACE_LABEL := Str(ns)]))
  }

  ghost function Empty(): System {
    System(map[], [], None, Cache(map[], map[]))
  }

  /** The state after one identity has been added to a namespace and its event handled. */
  ghost function OneIn(ns: string): System {
    System(map["1" := In(ns)], [], None, Cache(map[ns := 1], map["1" := Info("uid", map[NAMESPACE_LABEL := ns])]))
  }

  lemma {:induction false} ExecSnoc(s: System, steps: seq<Step>, t: System, step: Step)
    requires Exec(s, steps) == Some(t) && Enabled(t, step)
    ensures Exec(s, steps + [step]) == Some(Apply(t, step))
  {
    assert (steps + [step])[..|steps|] == steps;
  }

  lemma {:induction false} InfoIn(ns: string)
    ensures NamespaceOf(In(ns)) == Some(ns) && InfoOf(In(ns)) == Some(Info("uid", map[NAMESPACE_LABEL := ns]))
  {
    var values := In(ns).labels.values;
    assert (map k | k in values :: values[k].text) == map[NAMESPACE_LABEL := ns];
  }

  /** One object is added, and its event is listed and committed. */
  lemma {:induction false} AddIsHandled(s: System, name: string, id: Identity, ns: string, info: Info)
    requires Init(s) && NamespaceOf(id) == Some(ns) && InfoOf(id) == Some(info)
    ensures Exec(s, [Add(name, id), List(true), Commit]) ==
            Some(System(map[name := id], [], None, Cache(map[ns := 1], map[name := info])))
  {
    var add, list, s2 := Add(name, id), List(true), Listing(name, id);
    AddIsListed(s, name, id, ns);
    ExecSnoc(s, [add, list], s2, Commit);
    assert Apply(s2, Commit).cache == Cache(map[ns := 1], map[name := info]);
    assert [add, list] + [Commit] == [add, list, Commit];
  }

  ghost function Listing(name: string, id: Identity): System {
    System(map[name := id], [], Some(Flight(Event(name, id, false), 1)), Cache(map[], map[]))
  }

  lemma {:induction false} AddIsListed(s: System, name: string, id: Identity, ns: string)
    requires Init(s) && NamespaceOf(id) == Some(ns)
    ensures Exec(s, [Add(name, id), List(true)]) == Some(Listing(name, id))
  {
    var add, list := Add(name, id), List(true);
    ExecSnoc(s, [], s, add);
    var s1 := System(map[name := id], [Event(name, id, false)], None, s.cache);
    assert Apply(s, add) == s1 && [] + [add] == [add];
    ExecSnoc(s, [add], s1, list);
    assert Listed(s1.store, ns) == {name};
    assert Apply(s1, list) == Listing(name, id) && [add] + [list] == [add, list];
  }

  lemma {:induction false} OneInIsReached(ns: string)
    ensures Exec(Empty(), [Add("1", In(ns)), List(true), Commit]) == Some(OneIn(ns))
  {
    InfoIn(ns);
    AddIsHandled(Empty(), "1", In(ns), ns, Info("uid", map[NAMESPACE_LABEL := ns]));
  }

  /** It is reached: an identity that moves leaves a count behind for its old namespace. */
  lemma {:induction false} MovedIdentityIsMiscounted(ns: string, other: string)
    requires ns != other
    ensures Exec(Empty(), [Add("1", In(ns)), List(true), Commit]) == Some(OneIn(ns))
    ensures var t := Apply(Apply(Apply(OneIn(ns), Change("1", In(other))), List(true)), Commit);
            Quiescent(t) && Get(t.cache.counts, ns) == Some(1) && Listed(t.store, ns) == {}
  {
    OneInIsReached(ns);
  }

  /** So is a stranded info: the object stays known after its labels have become unreadable. */
  lemma {:induction false} UnreadableIdentityIsStranded(ns: string)
    ensures var t := Apply(Apply(Apply(OneIn(ns), Change("1", Identity("uid", NotMap))), List(true)), Commit);
            Quiescent(t) && "1" in t.cache.identities && StoredInfo(t.store, "1") == None
  {
  }

  /** And a count lost to a failed listing. */
  lemma {:induction false} FailedListingLosesCount(ns: string)
    ensures var t := Apply(Apply(Apply(OneIn(ns), Resync("1")), List(false)), Commit);
            Quiescent(t) && ns !in t.cache.counts && "1" in Listed(t.store, ns)
  {
    InfoIn(ns);
  }

  // ---- what an object says ----

  /** The namespace is the label's text, (null) without the label, and unreadable otherwise. */
  lemma {:induction false} NamespaceMeans(id: Identity, values: map<string, Value>)
    ensures id.labels.Absent? ==> NamespaceOf(id) == Some("(null)")
    ensures id.labels.NotMap? ==> NamespaceOf(id) == None
    ensures id.labels == Labels(values) ==>
              var v := Get(values, "k8s:io.kubernetes.pod.namespace");
              NamespaceOf(id) == if v.None? then Some("(null)") else if v.value.Str? then Some(v.value.text) else None
  {
  }

  /** The info is the uid and all labels as texts; an object has one if its namespace and all labels can be read. */
  lemma {:induction false} InfoMeans(id: Identity)
    ensures InfoOf(id).Some? <==>
              id.labels.Absent? || (id.labels.Labels? && forall k | k in id.labels.values :: id.labels.values[k].Str?)
    ensures InfoOf(id).Some? ==>
              && InfoOf(id).value.uid == id.uid
              && (id.labels.Absent? ==> InfoOf(id).value.labels == map[])
              && (id.labels.Labels? ==> forall k: string ::
                    Get(InfoOf(id).value.labels, k) ==
                    if k in id.labels.values then Some(id.labels.values[k].text) else None)
  {
  }
}
