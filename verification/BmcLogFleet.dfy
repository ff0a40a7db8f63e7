/**
 bmc-log-collector with many machines: polls of all of them in any order, each seen by its own machine only; and
 how often crashes can repeat a line.
 */
module BmcLogFleet {
  import opened Text
  import opened BmcLogCollector
  import opened BmcLogDelivery

  // ---- one machine's part of what happens ----

  datatype FleetEvent = FleetEvent(machine: Machine, event: Event)

  ghost function FleetStory(w: World, events: seq<FleetEvent>): World {
    if events == [] then w
    else
      var last := events[|events| - 1];
      After(FleetStory(w, events[..|events| - 1]), last.machine, last.event)
  }

  ghost function EventsOf(events: seq<FleetEvent>, m: Machine): seq<Event> {
    if events == [] then []
    else
      var last := events[|events| - 1];
      EventsOf(events[..|events| - 1], m) + if last.machine == m then [last.event] else []
  }

  ghost function LinesOf(lines: seq<Line>, m: Machine): seq<Line> {
    if lines == [] then []
    else
      var last := lines[|lines| - 1];
      LinesOf(lines[..|lines| - 1], m) + if last.machine == m then [last] else []
  }

  /** Neither the pointer file of x nor the side file it is written to is the pointer file of m. */
  predicate Undisturbed(m: Machine, x: Machine) {
    x.serial != m.serial && "_" + x.serial != m.serial
  }

  ghost predicate AllUndisturbed(events: seq<FleetEvent>, m: Machine) {
    forall i | 0 <= i < |events| && events[i].machine != m :: Undisturbed(m, events[i].machine)
  }

  /** Two worlds look the same to a machine. */
  ghost predicate Alike(v: World, w: World, m: Machine) {
    Get(v.files, m.serial) == Get(w.files, m.serial) && LinesOf(v.lines, m) == LinesOf(w.lines, m)
  }

  lemma {:induction false} LinesOfAppend(a: seq<Line>, b: seq<Line>, m: Machine)
    ensures LinesOf(a + b, m) == LinesOf(a, m) + LinesOf(b, m)
  {
    if b == [] {
      assert a + b == a;
    } else {
      LinesOfAppend(a, b[..|b| - 1], m);
      assert (a + b)[..|a + b| - 1] == a + b[..|b| - 1];
    }
  }

  lemma {:induction false} LinesOfTag(x: Machine, es: seq<Entry>, m: Machine)
    ensures LinesOf(Tag(x, es), m) == if x == m then Tag(x, es) else []
  {
    if es == [] {
    } else {
      var front := es[..|es| - 1];
      LinesOfTag(x, front, m);
      assert Tag(x, es)[..|es| - 1] == Tag(x, front);
      assert Tag(x, es) == Tag(x, front) + [Line(es[|es| - 1], x)];
    }
  }

  lemma {:induction false} LineOfMachine(lines: seq<Line>, e: Entry, m: Machine)
    ensures Line(e, m) in LinesOf(lines, m) <==> Line(e, m) in lines
  {
    if lines == [] {
    } else {
      var front := lines[..|lines| - 1];
      LineOfMachine(front, e, m);
      assert lines == front + [lines[|lines| - 1]];
    }
  }

  /** What an event writes depends on the machine's own pointer file only. */
  ghost function Written(file: Option<Content>, m: Machine, e: Event): seq<Entry> {
    if !e.Polls? || !Walkable(e.answer.response) then []
    else if file == Some(Garbled) || (file.None? && (e.fate.CreateFails? || e.fate.CreateCut?)) then []
    else Cut(Emitted(if file.Some? then file.value.pointer else ZERO, LogOf(e.answer.response)), e.fate)
  }

  /** And so does what becomes of that file. */
  ghost function Rewritten(file: Option<Content>, m: Machine, e: Event): Option<Content> {
    if e.PointerRemoved? then None
    else if file == Some(Garbled) || (file.None? && e.fate.CreateFails?) then file
    else if file.None? && e.fate.CreateCut? then Some(Garbled)
    else
      var p, r := if file.Some? then file.value.pointer else ZERO, e.answer.response;
      if e.fate.Killed? || e.fate.UpdateCut? || (AccessFailure(r).None? && !Walkable(r)) then Some(Stored(p))
      else Some(Stored(if AccessFailure(r).Some? then Noted(p, AccessFailure(r).value) else Advanced(p, LogOf(r))))
  }

  lemma {:induction false} OwnLines(w: World, m: Machine, e: Event)
    ensures After(w, m, e).lines == w.lines + Tag(m, Written(Get(w.files, m.serial), m, e))
  {
  }

  lemma {:induction false} OwnFile(w: World, m: Machine, e: Event)
    ensures Get(After(w, m, e).files, m.serial) == Rewritten(Get(w.files, m.serial), m, e)
  {
    assert |Temp(m.serial)| == |m.serial| + 1;
  }

  lemma {:induction false} OtherFile(w: World, m: Machine, x: Machine, e: Event)
    requires Undisturbed(m, x)
    ensures Get(After(w, x, e).files, m.serial) == Get(w.files, m.serial)
  {
  }

  lemma {:induction false} OtherEvent(w: World, m: Machine, x: Machine, e: Event)
    requires x != m && Undisturbed(m, x)
    ensures Alike(After(w, x, e), w, m)
  {
    var es := Written(Get(w.files, x.serial), x, e);
    OwnLines(w, x, e);
    OtherFile(w, m, x, e);
    LinesOfAppend(w.lines, Tag(x, es), m);
    LinesOfTag(x, es, m);
  }

  lemma {:induction false} SameEvent(v: World, w: World, m: Machine, e: Event)
    requires Alike(v, w, m)
    ensures Alike(After(v, m, e), After(w, m, e), m)
  {
    var es := Written(Get(w.files, m.serial), m, e);
    OwnLines(v, m, e);
    OwnLines(w, m, e);
    OwnFile(v, m, e);
    OwnFile(w, m, e);
    LinesOfAppend(v.lines, Tag(m, es), m);
    LinesOfAppend(w.lines, Tag(m, es), m);
  }

  /** Whatever the others do in between, a machine sees its own story. */
  lemma {:induction false} FleetProjects(w: World, events: seq<FleetEvent>, m: Machine)
    requires AllUndisturbed(events, m)
    ensures Alike(FleetStory(w, events), Story(w, m, EventsOf(events, m)), m)
  {
    if events == [] {
    } else {
      var front, last := events[..|events| - 1], events[|events| - 1];
      var own := EventsOf(front, m);
      FleetProjects(w, front, m);
      if last.machine == m {
        assert EventsOf(events, m)[..|own|] == own;
        SameEvent(FleetStory(w, front), Story(w, m, own), m, last.event);
      } else {
        assert EventsOf(events, m) == own;
        OtherEvent(FleetStory(w, front), m, last.machine, last.event);
      }
    }
  }

  // ---- the laws for each machine of a fleet ----

  ghost function AnswersIn(events: seq<Event>): seq<Answer> {
    if events == [] then []
    else
      var last := events[|events| - 1];
      AnswersIn(events[..|events| - 1]) + if last.Polls? then [last.answer] else []
  }

  lemma {:induction false} FinishingStory(w: World, m: Machine, events: seq<Event>)
    requires forall i | 0 <= i < |events| :: events[i].Polls? && events[i].fate.Finishes?
    ensures Story(w, m, events) == Run(w, m, AnswersIn(events))
  {
    if events == [] {
    } else {
      var front, last := events[..|events| - 1], events[|events| - 1];
      FinishingStory(w, m, front);
      assert AnswersIn(events) == AnswersIn(front) + [last.answer];
      assert AnswersIn(events)[..|AnswersIn(front)|] == AnswersIn(front);
    }
  }

  /** Exactly once, for each machine among many: its lines are the delivery of its own walked logs. */
  lemma {:induction false} FleetExactlyOnce(w: World, events: seq<FleetEvent>, m: Machine)
    requires AllUndisturbed(events, m) && FreshPointer(w, m)
    requires var own := EventsOf(events, m);
             && (forall i | 0 <= i < |own| :: own[i].Polls? && own[i].fate.Finishes?)
             && AppendOnly(Walks(AnswersIn(own)))
    ensures LinesOf(FleetStory(w, events).lines, m) ==
            LinesOf(w.lines, m) + Tag(m, Delivery(Walks(AnswersIn(EventsOf(events, m)))))
  {
    var answers := AnswersIn(EventsOf(events, m));
    FleetProjects(w, events, m);
    FinishingStory(w, m, EventsOf(events, m));
    ExactlyOnce(w, m, answers);
    LinesOfAppend(w.lines, Tag(m, Delivery(Walks(answers))), m);
    LinesOfTag(m, Delivery(Walks(answers)), m);
  }

  /** At least once, for each machine among many. */
  lemma {:induction false} FleetAtLeastOnce(w: World, events: seq<FleetEvent>, m: Machine, k: nat)
    requires AllUndisturbed(events, m) && FreshPointer(w, m) && DistinctStarts(EventsOf(events, m))
    requires k < |EventsOf(events, m)| && !CutCreation(w, m, EventsOf(events, m)[..k])
    requires Completed(Story(w, m, EventsOf(events, m)[..k]), m, EventsOf(events, m)[k])
    ensures AllWritten(LogIn(EventsOf(events, m)[k]), FleetStory(w, events).lines, m)
  {
    var own := EventsOf(events, m);
    FleetProjects(w, events, m);
    AtLeastOnce(w, m, own, k, |own|);
    assert own[..|own|] == own;
    forall e | e in LogIn(own[k]) ensures Line(e, m) in FleetStory(w, events).lines {
      LineOfMachine(FleetStory(w, events).lines, e, m);
      LineOfMachine(Story(w, m, own).lines, e, m);
    }
  }

  /** The condition on serials is needed: a poll of x takes away the pointer file of the machine called "_" and x. */
  lemma {:induction false} SideFileTakesPointer(w: World, m: Machine, x: Machine, message: string, generation: nat)
    requires m.serial == "_" + x.serial && Readable(w, x)
    ensures m.serial !in After(w, x, Polls(Answer(generation, TransportError(message)), Finishes)).files
  {
    assert |Temp(x.serial)| == |x.serial| + 1;
  }

  // ---- how often a line can be repeated ----

  /** The pointer update of a poll does not go through. */
  ghost predicate UpdateLost(e: Event) {
    WalksLog(e) && (e.fate.Killed? || e.fate.UpdateCut?)
  }

  ghost function Losses(events: seq<Event>): nat {
    if events == [] then 0
    else Losses(events[..|events| - 1]) + if UpdateLost(events[|events| - 1]) then 1 else 0
  }

  /** The BMC does not go back to an earlier generation, and the entry is in logs of one generation only. */
  ghost predicate GenerationsAscend(events: seq<Event>) {
    forall i, j | 0 <= i < j < |events| && WalksLog(events[i]) && WalksLog(events[j]) ::
      events[i].answer.generation <= events[j].answer.generation
  }

  ghost predicate OnlyIn(events: seq<Event>, entry: Entry, g: nat) {
    forall i | 0 <= i < |events| && WalksLog(events[i]) && entry in LogIn(events[i]) ::
      events[i].answer.generation == g
  }

  /** Ids that ascend up to a bound. */
  ghost predicate Ascends(es: seq<Entry>, bound: int) {
    && (forall i | 0 <= i < |es| :: es[i].id.Some? && es[i].id.value <= bound)
    && (forall i, j | 0 <= i < j < |es| :: es[i].id.Some? && es[j].id.Some? && es[i].id.value < es[j].id.value)
  }

  lemma {:induction false} AscendsSnoc(es: seq<Entry>, bound: int, e: Entry)
    requires Ascends(es, bound) && e.id.Some? && (es == [] || bound < e.id.value)
    ensures Ascends(es + [e], e.id.value) && Ascends(es, e.id.value)
  {
  }

  ghost function BoundAt(log: seq<Entry>, n: nat): int
    requires GoodLog(log) && n <= |log|
  {
    if n == 0 then 0 else log[n - 1].id.value
  }

  lemma {:induction false} PickedAscends(last: int, reset: bool, log: seq<Entry>, n: nat)
    requires GoodLog(log) && n <= |log|
    ensures Ascends(Picked(last, reset, log, n), BoundAt(log, n))
  {
    if n == 0 {
    } else {
      var front, es, bound := Picked(last, reset, log, n - 1), Picked(last, reset, log, n), BoundAt(log, n - 1);
      PickedAscends(last, reset, log, n - 1);
      assert es == front || es == front + [log[n - 1]];
      assert n == 1 ==> front == [];
      assert n > 1 ==> log[n - 2].id.value < log[n - 1].id.value;
      AscendsSnoc(front, bound, log[n - 1]);
    }
  }

  lemma {:induction false} AscendingOnce(es: seq<Entry>, bound: int, m: Machine, entry: Entry)
    requires Ascends(es, bound)
    ensures multiset(Tag(m, es))[Line(entry, m)] == if entry in es then 1 else 0
  {
    var lines := Tag(m, es);
    forall i, j | 0 <= i < j < |lines| ensures lines[i] != lines[j] {
      assert es[i].id.value < es[j].id.value;
    }
    CountOne(lines, Line(entry, m));
    if entry in es { TagMember(m, es, entry); }
    if Line(entry, m) in lines {
      var i :| 0 <= i < |lines| && lines[i] == Line(entry, m);
      assert es[i] == entry;
    }
  }

  /** One poll writes an entry at most once; not at all if it is not in the log or not above LastReadId. */
  lemma {:induction false} EmittedOnce(p: Pointer, log: seq<Entry>, m: Machine, fate: Fate, entry: Entry)
    requires GoodLog(log)
    ensures var n := multiset(Tag(m, Cut(Emitted(p, log), fate)))[Line(entry, m)];
            && n <= 1 && (entry !in log ==> n == 0)
            && (!Resets(p, log) && entry.id.Some? && entry.id.value <= p.lastReadId ==> n == 0)
  {
    var es, bound := Emitted(p, log), log[|log| - 1].id.value;
    PickedAscends(p.lastReadId, Resets(p, log), log, |log|);
    PickedFromLog(p.lastReadId, Resets(p, log), log, |log|);
    if !Resets(p, log) { PickedAreAbove(p.lastReadId, log, |log|); }
    var cut := Cut(es, fate);
    assert cut <= es && Ascends(cut, bound);
    assert forall e | e in cut :: e in es;
    AscendingOnce(cut, bound, m, entry);
  }

  lemma {:induction false} PickedAreAbove(last: int, log: seq<Entry>, n: nat)
    requires n <= |log|
    ensures forall e | e in Picked(last, false, log, n) :: e.id.Some? && last < e.id.value
  {
    if n == 0 {
    } else {
      PickedAreAbove(last, log, n - 1);
    }
  }

  /** The stored pointer stands in a generation, at or behind an entry. */
  ghost predicate Past(w: World, m: Machine, start: Option<int>, entry: Entry) {
    && m.serial in w.files && w.files[m.serial].Stored? && entry.id.Some?
    && Some(w.files[m.serial].pointer.firstCreateTime) == start
    && entry.id.value <= w.files[m.serial].pointer.lastReadId
  }

  /** The poll has written its log and stored the pointer behind it. */
  ghost predicate Settles(w: World, m: Machine, e: Event) {
    Reads(w, m, e) && WalksLog(e) && !UpdateLost(e)
  }

  /** A walk leaves the pointer where it was or behind its log; in the pointer's own generation it only advances. */
  lemma {:induction false} WalkMovesPast(w: World, m: Machine, e: Event, entry: Entry)
    requires Reads(w, m, e) && WalksLog(e) && GoodLog(LogIn(e)) && entry.id.Some?
    ensures var start := LogIn(e)[0].created;
            && (Past(w, m, start, entry) ==> Past(After(w, m, e), m, start, entry))
            && (Settles(w, m, e) && entry in LogIn(e) ==> Past(After(w, m, e), m, start, entry))
  {
    var p, log := PointerOf(w, m), LogIn(e);
    WalkEffect(w, m, e.answer.response, e.fate);
    FileAfter(w, m, e);
    if Resets(p, log) { PickedAfterReset(p.lastReadId, log, |log|); }
    else { LastAfterIsMaximum(p.lastReadId, log, |log|); }
  }

  lemma {:induction false} FailureStaysPast(w: World, m: Machine, e: Event, start: Option<int>, entry: Entry)
    requires e.Polls? && !WalksLog(e) && Past(w, m, start, entry)
    ensures Past(After(w, m, e), m, start, entry)
  {
    FailureKeepsPosition(w, m, e.answer.response, e.fate);
    FileAfter(w, m, e);
  }

  /** The number of times an entry has been written is within the losses so far, plus one once a poll has settled it. */
  ghost predicate Bounded(w: World, m: Machine, entry: Entry, base: nat, settled: bool) {
    multiset(w.lines)[Line(entry, m)] <= base + if settled then 1 else 0
  }

  lemma {:induction false} BoundStep(w: World, m: Machine, e: Event, entry: Entry, g: nat, start: Option<int>,
                                     base: nat, settled: bool, beyond: bool)
    requires e.Polls? && entry.id.Some? && Bounded(w, m, entry, base, settled)
    requires settled && !beyond ==> Past(w, m, start, entry)
    requires WalksLog(e) ==>
               && GoodLog(LogIn(e)) && (e.answer.generation == g ==> LogIn(e)[0].created == start)
               && (entry in LogIn(e) ==> e.answer.generation == g)
               && (settled ==> e.answer.generation >= g) && (beyond ==> e.answer.generation > g)
    ensures var settled' := settled || (Settles(w, m, e) && entry in LogIn(e));
            var beyond' := beyond || (WalksLog(e) && e.answer.generation > g);
            && Bounded(After(w, m, e), m, entry, base + (if UpdateLost(e) then 1 else 0), settled')
            && (settled' && !beyond' ==> Past(After(w, m, e), m, start, entry))
  {
    if Reads(w, m, e) && WalksLog(e) {
      var p := PointerOf(w, m);
      WalkEffect(w, m, e.answer.response, e.fate);
      EmittedOnce(p, LogIn(e), m, e.fate, entry);
      WalkMovesPast(w, m, e, entry);
    } else {
      if Reads(w, m, e) { FailureKeepsPosition(w, m, e.answer.response, e.fate); }
      else { NotReadNothingWritten(w, m, e); }
      if settled && !beyond && !WalksLog(e) { FailureStaysPast(w, m, e, start, entry); }
    }
  }

  /** Whether a poll among the events has settled an entry. */
  ghost predicate Settled(w: World, m: Machine, events: seq<Event>, entry: Entry) {
    if events == [] then false
    else
      var front, last := events[..|events| - 1], events[|events| - 1];
      Settled(w, m, front, entry) || (Settles(Story(w, m, front), m, last) && entry in LogIn(last))
  }

  ghost predicate Beyond(events: seq<Event>, g: nat) {
    exists i | 0 <= i < |events| :: WalksLog(events[i]) && events[i].answer.generation > g
  }

  ghost predicate StartsAt(events: seq<Event>, g: nat, start: Option<int>) {
    forall i | 0 <= i < |events| && WalksLog(events[i]) && events[i].answer.generation == g ::
      LogIn(events[i])[0].created == start
  }

  lemma {:induction false} SettledSeen(w: World, m: Machine, events: seq<Event>, entry: Entry)
    requires Settled(w, m, events, entry)
    ensures exists i | 0 <= i < |events| :: WalksLog(events[i]) && entry in LogIn(events[i])
  {
    var front, last := events[..|events| - 1], events[|events| - 1];
    if Settled(w, m, front, entry) {
      SettledSeen(w, m, front, entry);
      var i :| 0 <= i < |front| && WalksLog(front[i]) && entry in LogIn(front[i]);
      assert events[i] == front[i];
    }
  }

  lemma {:induction false} BeyondSnoc(events: seq<Event>, g: nat)
    requires events != []
    ensures var last := events[|events| - 1];
            Beyond(events, g) <==> Beyond(events[..|events| - 1], g) || (WalksLog(last) && last.answer.generation > g)
  {
    var front := events[..|events| - 1];
    if i :| 0 <= i < |front| && WalksLog(front[i]) && front[i].answer.generation > g {
      assert events[i] == front[i];
    }
    if i :| 0 <= i < |events| && WalksLog(events[i]) && events[i].answer.generation > g {
      assert i < |front| ==> front[i] == events[i];
    }
  }

  ghost predicate Steady(events: seq<Event>, entry: Entry, g: nat, start: Option<int>) {
    && DistinctStarts(events) && GenerationsAscend(events) && OnlyIn(events, entry, g) && StartsAt(events, g, start)
    && forall i | 0 <= i < |events| :: events[i].Polls?
  }

  lemma {:induction false} SteadyFront(events: seq<Event>, entry: Entry, g: nat, start: Option<int>)
    requires events != [] && Steady(events, entry, g, start)
    ensures Steady(events[..|events| - 1], entry, g, start)
  {
    var front := events[..|events| - 1];
    assert forall i | 0 <= i < |front| :: front[i] == events[i];
  }

  lemma {:induction false} LastIsLater(w: World, m: Machine, events: seq<Event>, entry: Entry, g: nat,
                                       start: Option<int>)
    requires events != [] && Steady(events, entry, g, start) && WalksLog(events[|events| - 1])
    ensures var front, last := events[..|events| - 1], events[|events| - 1];
            && (Settled(w, m, front, entry) ==> last.answer.generation >= g)
            && (Beyond(front, g) ==> last.answer.generation > g)
  {
    var front := events[..|events| - 1];
    assert forall i | 0 <= i < |front| :: front[i] == events[i];
    if Settled(w, m, front, entry) {
      SettledSeen(w, m, front, entry);
      var i :| 0 <= i < |front| && WalksLog(front[i]) && entry in LogIn(front[i]);
      assert events[i].answer.generation == g;
    }
  }

  lemma {:induction false} BoundRun(w: World, m: Machine, events: seq<Event>, entry: Entry, g: nat, start: Option<int>)
    requires Steady(events, entry, g, start) && entry.id.Some?
    ensures var t, base := Story(w, m, events), multiset(w.lines)[Line(entry, m)] + Losses(events);
            && Bounded(t, m, entry, base, Settled(w, m, events, entry))
            && (Settled(w, m, events, entry) && !Beyond(events, g) ==> Past(t, m, start, entry))
  {
    if events == [] {
    } else {
      var front, last := events[..|events| - 1], events[|events| - 1];
      SteadyFront(events, entry, g, start);
      BoundRun(w, m, front, entry, g, start);
      if WalksLog(last) { LastIsLater(w, m, events, entry, g, start); }
      BeyondSnoc(events, g);
      BoundStep(Story(w, m, front), m, last, entry, g, start, multiset(w.lines)[Line(entry, m)] + Losses(front),
                Settled(w, m, front, entry), Beyond(front, g));
    }
  }

  /**
   Crashes repeat little: over any story of polls a line is written at most once more than the number of polls whose
   pointer update was lost.
   */
  lemma {:induction false} RepeatsBounded(w: World, m: Machine, events: seq<Event>, entry: Entry, g: nat,
                                          start: Option<int>)
    requires Steady(events, entry, g, start) && entry.id.Some?
    ensures multiset(Story(w, m, events).lines)[Line(entry, m)] <=
            multiset(w.lines)[Line(entry, m)] + Losses(events) + 1
  {
    BoundRun(w, m, events, entry, g, start);
  }
}
