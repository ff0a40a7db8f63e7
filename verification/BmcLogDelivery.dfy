/** What bmc-log-collector delivers over whole runs of polls. */
module BmcLogDelivery {
  import opened Text
  import opened BmcLogCollector

  // ---- runs in a sequence, and the last element of each ----

  /** The last element of every maximal run of neighbours with equal keys. */
  ghost function LastOfRuns<T, K>(xs: seq<T>, key: T -> K): seq<T> {
    if |xs| < 2 then xs
    else if key(xs[0]) == key(xs[1]) then LastOfRuns(xs[1..], key)
    else [xs[0]] + LastOfRuns(xs[1..], key)
  }

  lemma {:induction false} LastOfRunsLast<T, K>(xs: seq<T>, key: T -> K)
    requires xs != []
    ensures var runs := LastOfRuns(xs, key); runs != [] && runs[|runs| - 1] == xs[|xs| - 1]
  {
    if |xs| <= 1 {
    } else {
      LastOfRunsLast(xs[1..], key);
    }
  }

  lemma {:induction false} LastOfRunsSnoc<T, K>(xs: seq<T>, x: T, key: T -> K)
    requires xs != []
    ensures var runs := LastOfRuns(xs, key);
            && runs != [] && runs[|runs| - 1] == xs[|xs| - 1]
            && LastOfRuns(xs + [x], key) ==
               if key(xs[|xs| - 1]) == key(x) then runs[..|runs| - 1] + [x] else runs + [x]
  {
    LastOfRunsLast(xs, key);
    if |xs| == 1 {
      assert xs + [x] == [xs[0], x] && (xs + [x])[1..] == [x];
    } else {
      var tail := xs[1..];
      var runs := LastOfRuns(tail, key);
      assert (xs + [x])[1..] == tail + [x] && tail[|tail| - 1] == xs[|xs| - 1];
      LastOfRunsSnoc(tail, x, key);
      assert ([xs[0]] + runs)[..|runs|] == [xs[0]] + runs[..|runs| - 1];
    }
  }

  // ---- a BMC with append-only log generations ----

  datatype Answer = Answer(generation: nat, response: Response)

  /** A log that a poll got to walk. */
  datatype Walk = Walk(generation: nat, log: seq<Entry>)

  ghost function Walks(answers: seq<Answer>): seq<Walk> {
    if answers == [] then []
    else
      var a := answers[|answers| - 1];
      Walks(answers[..|answers| - 1]) + if Walkable(a.response) then [Walk(a.generation, LogOf(a.response))] else []
  }

  /** Ids are numbers, positive and strictly increasing; the oldest entry has a timestamp. */
  ghost predicate GoodLog(log: seq<Entry>) {
    && log != [] && log[0].created.Some?
    && (forall i | 0 <= i < |log| :: log[i].id.Some? && 0 < log[i].id.value)
    && (forall i, j | 0 <= i < j < |log| :: log[i].id.value < log[j].id.value)
  }

  /** Within a generation the log only grows; the next generation starts at another time. */
  ghost predicate AppendOnly(ws: seq<Walk>) {
    && (forall i | 0 <= i < |ws| :: GoodLog(ws[i].log))
    && (forall i | 0 < i < |ws| :: Follows(ws[i - 1], ws[i]))
  }

  ghost function Concat(ws: seq<Walk>): seq<Entry> {
    if ws == [] then [] else Concat(ws[..|ws| - 1]) + ws[|ws| - 1].log
  }

  function GenerationOf(w: Walk): nat { w.generation }

  /** Generation by generation, the log as it was when last polled. */
  ghost function Delivery(ws: seq<Walk>): seq<Entry> {
    Concat(LastOfRuns(ws, GenerationOf))
  }

  ghost function Run(w: World, m: Machine, answers: seq<Answer>): World {
    if answers == [] then w
    else Poll(Run(w, m, answers[..|answers| - 1]), m, answers[|answers| - 1].response, Finishes)
  }

  ghost predicate FreshPointer(w: World, m: Machine) {
    m.serial in w.files ==> w.files[m.serial] == Stored(ZERO)
  }

  // ---- exactly once ----

  /** Where the pointer stands after a run: at the newest entry of the log walked last. */
  ghost predicate Caught(p: Pointer, ws: seq<Walk>) {
    if ws == [] then p.lastReadId == 0 && p.firstCreateTime == 0
    else
      var log := ws[|ws| - 1].log;
      log != [] && Some(p.firstCreateTime) == log[0].created && Some(p.lastReadId) == log[|log| - 1].id
  }

  ghost function PointerOf(w: World, m: Machine): Pointer {
    if m.serial in w.files && w.files[m.serial].Stored? then w.files[m.serial].pointer else ZERO
  }

  ghost predicate Readable(w: World, m: Machine) {
    m.serial in w.files ==> w.files[m.serial].Stored?
  }

  /** A failed poll leaves the reading position alone, whatever becomes of the pointer update. */
  lemma FailureKeepsPosition(w: World, m: Machine, r: Response, fate: Fate)
    requires Readable(w, m) && !Walkable(r) && (fate.CreateCut? ==> m.serial in w.files)
    ensures var w' := Poll(w, m, r, fate);
            && Readable(w', m) && w'.lines == w.lines
            && SamePosition(PointerOf(w', m), PointerOf(w, m))
  {
    assert |Temp(m.serial)| == |m.serial| + 1;
  }

  /** A walked log adds its lines; the pointer moves only if the update goes through. */
  lemma WalkEffect(w: World, m: Machine, r: Response, fate: Fate)
    requires Readable(w, m) && Walkable(r) && (fate.CreateCut? || fate.CreateFails? ==> m.serial in w.files)
    ensures var w', p := Poll(w, m, r, fate), PointerOf(w, m);
            && Readable(w', m) && w'.lines == w.lines + Tag(m, Cut(Emitted(p, LogOf(r)), fate))
            && PointerOf(w', m) == (if fate.Killed? || fate.UpdateCut? then p else Advanced(p, LogOf(r)))
  {
    assert |Temp(m.serial)| == |m.serial| + 1;
  }

  ghost predicate SamePosition(p: Pointer, q: Pointer) {
    p.lastReadId == q.lastReadId && p.firstCreateTime == q.firstCreateTime
  }

  lemma {:induction false} PickedAfterReset(last: int, log: seq<Entry>, n: nat)
    requires GoodLog(log) && n <= |log|
    ensures Picked(last, true, log, n) == log[..n]
    ensures n > 0 ==> LastAfter(last, true, log, n) == log[n - 1].id.value
  {
    if n == 0 {
    } else {
      PickedAfterReset(last, log, n - 1);
      assert log[..n] == log[..n - 1] + [log[n - 1]];
    }
  }

  /** With the pointer at entry k - 1 (or before the first), the entries from k on are emitted. */
  lemma {:induction false} PickedNewSuffix(last: int, log: seq<Entry>, k: nat, n: nat)
    requires GoodLog(log) && k <= n <= |log|
    requires last == if k == 0 then 0 else log[k - 1].id.value
    ensures Picked(last, false, log, n) == log[k..n]
    ensures LastAfter(last, false, log, n) == if n == 0 then last else log[n - 1].id.value
  {
    if n > k {
      PickedNewSuffix(last, log, k, n - 1);
      assert Picks(last, false, log, n - 1);
      assert log[k..n] == log[k..n - 1] + [log[n - 1]];
    } else {
      NothingPicked(last, log, k);
    }
  }

  lemma {:induction false} NothingPicked(last: int, log: seq<Entry>, n: nat)
    requires n <= |log| && forall i | 0 <= i < n :: log[i].id.Some? ==> log[i].id.value <= last
    ensures Picked(last, false, log, n) == [] && LastAfter(last, false, log, n) == last
  {
    if n == 0 {
    } else {
      NothingPicked(last, log, n - 1);
    }
  }

  /** `w` may follow `prev`. */
  ghost predicate Follows(prev: Walk, w: Walk)
    requires GoodLog(prev.log) && GoodLog(w.log)
  {
    if prev.generation == w.generation then prev.log <= w.log else prev.log[0].created != w.log[0].created
  }

  /** One walked log adds exactly what the delivery of the longer run has in addition. */
  lemma StepDelivers(p: Pointer, ws: seq<Walk>, w: Walk)
    requires Caught(p, ws) && GoodLog(w.log)
    requires ws != [] ==> GoodLog(ws[|ws| - 1].log) && Follows(ws[|ws| - 1], w)
    ensures Delivery(ws) + Emitted(p, w.log) == Delivery(ws + [w])
    ensures Caught(Advanced(p, w.log), ws + [w])
  {
    if ws == [] {
      assert ws + [w] == [w] && [w][..0] == [];
      FirstLogEmitted(p, w.log);
    } else if ws[|ws| - 1].generation == w.generation {
      var prev := ws[|ws| - 1];
      var before := DeliveryExtends(ws, w);
      GrownLogEmitted(p, prev.log, w.log);
      assert before + prev.log + Emitted(p, w.log) == before + (prev.log + Emitted(p, w.log));
    } else {
      DeliveryRestarts(ws, w);
      PickedAfterReset(p.lastReadId, w.log, |w.log|);
    }
  }

  lemma DeliveryRestarts(ws: seq<Walk>, w: Walk)
    requires ws != [] && ws[|ws| - 1].generation != w.generation
    ensures Delivery(ws + [w]) == Delivery(ws) + w.log
  {
    LastOfRunsSnoc(ws, w, GenerationOf);
    ConcatSnoc(LastOfRuns(ws, GenerationOf), w);
  }

  lemma DeliveryExtends(ws: seq<Walk>, w: Walk) returns (before: seq<Entry>)
    requires ws != [] && ws[|ws| - 1].generation == w.generation
    ensures Delivery(ws) == before + ws[|ws| - 1].log
    ensures Delivery(ws + [w]) == before + w.log
  {
    LastOfRunsSnoc(ws, w, GenerationOf);
    var runs := LastOfRuns(ws, GenerationOf);
    var init := runs[..|runs| - 1];
    assert runs == init + [ws[|ws| - 1]];
    before := Concat(init);
    ConcatSnoc(init, ws[|ws| - 1]);
    ConcatSnoc(init, w);
  }

  lemma FirstLogEmitted(p: Pointer, log: seq<Entry>)
    requires GoodLog(log) && p.lastReadId == 0
    ensures Emitted(p, log) == log
    ensures Advanced(p, log).lastReadId == log[|log| - 1].id.value
  {
    if Resets(p, log) { PickedAfterReset(p.lastReadId, log, |log|); }
    else { PickedNewSuffix(0, log, 0, |log|); }
  }

  lemma GrownLogEmitted(p: Pointer, old': seq<Entry>, log: seq<Entry>)
    requires GoodLog(old') && GoodLog(log) && old' <= log
    requires Some(p.firstCreateTime) == old'[0].created && Some(p.lastReadId) == old'[|old'| - 1].id
    ensures old' + Emitted(p, log) == log
    ensures Advanced(p, log).lastReadId == log[|log| - 1].id.value
  {
    var k := |old'|;
    assert log[k - 1] == old'[k - 1] && log[0] == old'[0];
    PickedNewSuffix(p.lastReadId, log, k, |log|);
  }

  lemma ConcatSnoc(ws: seq<Walk>, w: Walk)
    ensures Concat(ws + [w]) == Concat(ws) + w.log
  {
    assert (ws + [w])[..|ws|] == ws;
  }

  lemma TagConcat(m: Machine, a: seq<Entry>, b: seq<Entry>)
    ensures Tag(m, a + b) == Tag(m, a) + Tag(m, b)
  {
  }

  /** Exactly once: whatever polls fail in between, the output is the delivery of the walked logs. */
  lemma {:induction false} ExactlyOnce(w: World, m: Machine, answers: seq<Answer>)
    requires FreshPointer(w, m) && AppendOnly(Walks(answers))
    ensures Run(w, m, answers).lines == w.lines + Tag(m, Delivery(Walks(answers)))
    ensures Readable(Run(w, m, answers), m) && Caught(PointerOf(Run(w, m, answers), m), Walks(answers))
  {
    if answers == [] {
      assert Tag(m, Delivery([])) == [];
    } else {
      var front, a := answers[..|answers| - 1], answers[|answers| - 1];
      var ws, before := Walks(front), Run(w, m, front);
      if Walkable(a.response) {
        AppendOnlySnoc(ws, Walk(a.generation, LogOf(a.response)));
      } else {
        assert Walks(answers) == ws;
      }
      ExactlyOnce(w, m, front);
      StepExact(w.lines, before, m, a, ws);
    }
  }

  lemma {:induction false} StepExact(start: seq<Line>, before: World, m: Machine, a: Answer, ws: seq<Walk>)
    requires Readable(before, m) && Caught(PointerOf(before, m), ws)
    requires before.lines == start + Tag(m, Delivery(ws))
    requires Walkable(a.response) ==>
               var w := Walk(a.generation, LogOf(a.response));
               GoodLog(w.log) && (ws != [] ==> GoodLog(ws[|ws| - 1].log) && Follows(ws[|ws| - 1], w))
    ensures var w' := Poll(before, m, a.response, Finishes);
            var ws' := ws + if Walkable(a.response) then [Walk(a.generation, LogOf(a.response))] else [];
            && Readable(w', m) && Caught(PointerOf(w', m), ws')
            && w'.lines == start + Tag(m, Delivery(ws'))
  {
    if Walkable(a.response) {
      WalkExact(start, before, m, a, ws);
    } else {
      FailureKeepsPosition(before, m, a.response, Finishes);
      assert ws + [] == ws;
    }
  }

  lemma {:induction false} WalkExact(start: seq<Line>, before: World, m: Machine, a: Answer, ws: seq<Walk>)
    requires Readable(before, m) && Caught(PointerOf(before, m), ws) && Walkable(a.response)
    requires before.lines == start + Tag(m, Delivery(ws))
    requires var w := Walk(a.generation, LogOf(a.response));
             GoodLog(w.log) && (ws != [] ==> GoodLog(ws[|ws| - 1].log) && Follows(ws[|ws| - 1], w))
    ensures var w' := Poll(before, m, a.response, Finishes);
            var ws' := ws + [Walk(a.generation, LogOf(a.response))];
            && Readable(w', m) && Caught(PointerOf(w', m), ws')
            && w'.lines == start + Tag(m, Delivery(ws'))
  {
    var w, p := Walk(a.generation, LogOf(a.response)), PointerOf(before, m);
    WalkEffect(before, m, a.response, Finishes);
    StepDelivers(p, ws, w);
    DeliveredLines(m, start, Delivery(ws), Emitted(p, w.log), Delivery(ws + [w]));
  }

  lemma {:induction false} DeliveredLines(m: Machine, start: seq<Line>, a: seq<Entry>, b: seq<Entry>, ab: seq<Entry>)
    requires a + b == ab
    ensures start + Tag(m, a) + Tag(m, b) == start + Tag(m, ab)
  {
    TagConcat(m, a, b);
  }

  lemma AppendOnlySnoc(ws: seq<Walk>, w: Walk)
    requires AppendOnly(ws + [w])
    ensures AppendOnly(ws) && GoodLog(w.log)
    ensures ws != [] ==> Follows(ws[|ws| - 1], w)
  {
    var all := ws + [w];
    assert all[|ws|] == w;
    assert forall i | 0 <= i < |ws| :: all[i] == ws[i];
    forall i | 0 < i < |ws| ensures Follows(ws[i - 1], ws[i]) {
      assert Follows(all[i - 1], all[i]);
    }
    assert ws != [] ==> Follows(all[|ws| - 1], all[|ws|]);
  }

  // ---- at least once, with crashes ----

  /** Anything that can happen to one machine's pointer and output. */
  datatype Event = Polls(answer: Answer, fate: Fate) | PointerRemoved

  ghost function After(w: World, m: Machine, e: Event): World {
    match e
    case Polls(answer, fate) => Poll(w, m, answer.response, fate)
    case PointerRemoved => w.(files := w.files - {m.serial})
  }

  ghost function Story(w: World, m: Machine, events: seq<Event>): World {
    if events == [] then w else After(Story(w, m, events[..|events| - 1]), m, events[|events| - 1])
  }

  ghost predicate WalksLog(e: Event) {
    e.Polls? && Walkable(e.answer.response)
  }

  ghost function LogIn(e: Event): seq<Entry>
    requires WalksLog(e)
  {
    LogOf(e.answer.response)
  }

  /** Logs of one generation extend each other; those of different generations start at different times. */
  ghost predicate DistinctStarts(events: seq<Event>) {
    && (forall i | 0 <= i < |events| && WalksLog(events[i]) :: GoodLog(LogIn(events[i])))
    && (forall i, j | 0 <= i < |events| && 0 <= j < |events| && WalksLog(events[i]) && WalksLog(events[j]) ::
          if events[i].answer.generation == events[j].answer.generation
          then LogIn(events[i]) <= LogIn(events[j]) || LogIn(events[j]) <= LogIn(events[i])
          else LogIn(events[i])[0].created != LogIn(events[j])[0].created)
  }

  /**
   Nothing stops the poll before its last line: it is not killed earlier, and the pointer file it needs is there
   or can be created. The pointer update may still fail.
   */
  ghost predicate Completed(w: World, m: Machine, e: Event) {
    && WalksLog(e)
    && match e.fate
       case Finishes => true
       case UpdateCut(_) => true
       case Killed(writes) => |Emitted(PointerOf(w, m), LogIn(e))| <= writes
       case CreateFails => m.serial in w.files
       case CreateCut => m.serial in w.files
  }

  ghost predicate AllWritten(log: seq<Entry>, lines: seq<Line>, m: Machine) {
    forall e | e in log :: Line(e, m) in lines
  }

  /** The stored pointer never passes an entry that has not been written. */
  ghost predicate NeverAhead(p: Pointer, lines: seq<Line>, m: Machine, events: seq<Event>) {
    forall i, e | 0 <= i < |events| && WalksLog(events[i]) && e in LogIn(events[i]) ::
      LogIn(events[i])[0].created == Some(p.firstCreateTime) && e.id.Some? && e.id.value <= p.lastReadId ==>
        Line(e, m) in lines
  }

  lemma {:induction false} PickedAbove(last: int, log: seq<Entry>, n: nat)
    requires GoodLog(log) && n <= |log|
    ensures forall i | 0 <= i < n && last < log[i].id.value :: log[i] in Picked(last, false, log, n)
    ensures LastAfter(last, false, log, n) == last ||
            (n > 0 && LastAfter(last, false, log, n) == log[n - 1].id.value)
  {
    if n == 0 {
    } else {
      PickedAbove(last, log, n - 1);
      LastAfterIsMaximum(last, log, n - 1);
      if last < log[n - 1].id.value {
        assert Picks(last, false, log, n - 1);
      }
    }
  }

  lemma TagMember(m: Machine, es: seq<Entry>, e: Entry)
    requires e in es
    ensures Line(e, m) in Tag(m, es)
  {
    var i :| 0 <= i < |es| && es[i] == e;
    assert Tag(m, es)[i] == Line(e, m);
  }

  /** A poll that writes all its lines leaves its whole log written, and the new pointer is not ahead either. */
  lemma PollCovers(p: Pointer, lines: seq<Line>, m: Machine, events: seq<Event>, k: nat)
    requires DistinctStarts(events) && k < |events| && WalksLog(events[k])
    requires NeverAhead(p, lines, m, events)
    ensures var log := LogIn(events[k]);
            var lines' := lines + Tag(m, Emitted(p, log));
            && (forall e | e in log :: Line(e, m) in lines')
            && NeverAhead(Advanced(p, log), lines', m, events)
  {
    var log := LogIn(events[k]);
    var lines' := lines + Tag(m, Emitted(p, log));
    if Resets(p, log) { PickedAfterReset(p.lastReadId, log, |log|); assert log[..|log|] == log; }
    else { PickedAbove(p.lastReadId, log, |log|); }
    forall e | e in log ensures Line(e, m) in lines' {
      if e in Emitted(p, log) { TagMember(m, Emitted(p, log), e); }
    }
    var q := Advanced(p, log);
    forall i, e | 0 <= i < |events| && WalksLog(events[i]) && e in LogIn(events[i]) &&
                  LogIn(events[i])[0].created == Some(q.firstCreateTime) && e.id.Some? && e.id.value <= q.lastReadId
      ensures Line(e, m) in lines'
    {
      var other := LogIn(events[i]);
      assert events[i].answer.generation == events[k].answer.generation;
      if e !in log {
        var j :| 0 <= j < |other| && other[j] == e;
        assert log <= other && j >= |log|;
        assert other[|log| - 1] == log[|log| - 1];
        assert !Resets(p, log) && q.lastReadId == p.lastReadId;
      }
    }
  }

  lemma MoreLines(p: Pointer, lines: seq<Line>, more: seq<Line>, m: Machine, events: seq<Event>)
    requires NeverAhead(p, lines, m, events)
    ensures NeverAhead(p, lines + more, m, events)
  {
  }

  /** Every event keeps the invariant, whatever the pointer file looks like. */
  lemma {:induction false} StepKeepsNeverAhead(w: World, m: Machine, events: seq<Event>, k: nat)
    requires DistinctStarts(events) && k < |events| && NeverAhead(PointerOf(w, m), w.lines, m, events)
    ensures var w' := After(w, m, events[k]);
            w.lines <= w'.lines && NeverAhead(PointerOf(w', m), w'.lines, m, events)
  {
    var w', p, e := After(w, m, events[k]), PointerOf(w, m), events[k];
    if Reads(w, m, e) && WalksLog(e) {
      WalkEffect(w, m, e.answer.response, e.fate);
      PollCovers(p, w.lines, m, events, k);
      MoreLines(p, w.lines, Tag(m, Cut(Emitted(p, LogIn(e)), e.fate)), m, events);
      if !e.fate.Killed? { CutKeepsAll(e.fate, Emitted(p, LogIn(e))); }
    } else if Reads(w, m, e) {
      FailureKeepsPosition(w, m, e.answer.response, e.fate);
    } else {
      NotReadNothingWritten(w, m, e);
      ZeroNeverAhead(w.lines, m, events);
    }
  }

  /** The poll gets to read a pointer. */
  ghost predicate Reads(w: World, m: Machine, e: Event) {
    e.Polls? && Readable(w, m) && (e.fate.CreateCut? || e.fate.CreateFails? ==> m.serial in w.files)
  }

  /** Otherwise nothing is written, and the pointer is as it was or counts as zero. */
  lemma {:induction false} NotReadNothingWritten(w: World, m: Machine, e: Event)
    requires !Reads(w, m, e)
    ensures var w' := After(w, m, e);
            w'.lines == w.lines && (PointerOf(w', m) == PointerOf(w, m) || PointerOf(w', m) == ZERO)
  {
  }

  lemma {:induction false} ZeroNeverAhead(lines: seq<Line>, m: Machine, events: seq<Event>)
    requires DistinctStarts(events)
    ensures NeverAhead(ZERO, lines, m, events)
  {
    assert forall i, x | 0 <= i < |events| && WalksLog(events[i]) && x in LogIn(events[i]) :: 0 < x.id.value;
  }

  lemma {:induction false} CutKeepsAll<T>(fate: Fate, xs: seq<T>)
    requires !fate.Killed? || |xs| <= fate.writes
    ensures Cut(xs, fate) == xs
  {
  }

  /** A completed poll has its whole log written if and only if its pointer file was readable or it had been before. */
  lemma {:induction false} CompletedPollCovers(w: World, m: Machine, events: seq<Event>, k: nat)
    requires DistinctStarts(events) && k < |events| && Completed(w, m, events[k])
    requires NeverAhead(PointerOf(w, m), w.lines, m, events)
    ensures AllWritten(LogIn(events[k]), After(w, m, events[k]).lines, m) <==>
              Readable(w, m) || AllWritten(LogIn(events[k]), w.lines, m)
  {
    var p, e := PointerOf(w, m), events[k];
    if Readable(w, m) {
      WalkEffect(w, m, e.answer.response, e.fate);
      PollCovers(p, w.lines, m, events, k);
      CutKeepsAll(e.fate, Emitted(p, LogIn(e)));
    } else {
      NotReadNothingWritten(w, m, e);
    }
  }

  // ---- when the pointer file is readable ----

  /** Whether there is a pointer file, from what happened so far. */
  ghost predicate HasFile(w: World, m: Machine, events: seq<Event>) {
    if events == [] then m.serial in w.files
    else
      match events[|events| - 1]
      case PointerRemoved => false
      case Polls(_, fate) => fate.CreateFails? ==> HasFile(w, m, events[..|events| - 1])
  }

  /** A creation of the pointer file was cut short, and the file has not been removed since. */
  ghost predicate CutCreation(w: World, m: Machine, events: seq<Event>) {
    if events == [] then false
    else
      var front := events[..|events| - 1];
      match events[|events| - 1]
      case PointerRemoved => false
      case Polls(_, fate) => CutCreation(w, m, front) || (fate.CreateCut? && !HasFile(w, m, front))
  }

  /** In every story the pointer file can be read exactly when no cut creation is left standing. */
  lemma {:induction false} ReadableUnlessCut(w: World, m: Machine, events: seq<Event>)
    requires Readable(w, m)
    ensures Readable(Story(w, m, events), m) <==> !CutCreation(w, m, events)
    ensures m.serial in Story(w, m, events).files <==> HasFile(w, m, events)
  {
    if events == [] {
    } else {
      var front := events[..|events| - 1];
      ReadableUnlessCut(w, m, front);
      FileAfter(Story(w, m, front), m, events[|events| - 1]);
    }
  }

  lemma {:induction false} FileAfter(w: World, m: Machine, e: Event)
    ensures var w' := After(w, m, e);
            && (m.serial in w'.files <==> e.Polls? && (e.fate.CreateFails? ==> m.serial in w.files))
            && (Readable(w', m) <==> e.Polls? ==> Readable(w, m) && (e.fate.CreateCut? ==> m.serial in w.files))
  {
    assert |Temp(m.serial)| == |m.serial| + 1;
  }

  /** The stored pointer is not ahead of the output. */
  ghost predicate Safe(w: World, m: Machine, events: seq<Event>) {
    NeverAhead(PointerOf(w, m), w.lines, m, events)
  }

  lemma {:induction false} SafeStep(w: World, w': World, m: Machine, events: seq<Event>, k: nat)
    requires DistinctStarts(events) && k < |events| && Safe(w, m, events) && w' == After(w, m, events[k])
    ensures Safe(w', m, events)
  {
    StepKeepsNeverAhead(w, m, events, k);
  }

  lemma {:induction false} SafeAtStart(w: World, m: Machine, events: seq<Event>)
    requires FreshPointer(w, m) && DistinctStarts(events)
    ensures Safe(w, m, events)
  {
    ZeroNeverAhead(w.lines, m, events);
  }

  lemma {:induction false} StorySafeStep(w: World, m: Machine, events: seq<Event>, n: nat)
    requires DistinctStarts(events) && n < |events| && Safe(Story(w, m, events[..n]), m, events)
    ensures Safe(Story(w, m, events[..n + 1]), m, events)
  {
    StorySnoc(w, m, events, n);
    SafeStep(Story(w, m, events[..n]), Story(w, m, events[..n + 1]), m, events, n);
  }

  lemma {:induction false} Carried(p: nat -> bool, n: nat)
    requires p(0) && forall i: nat | i < n && p(i) :: p(i + 1)
    ensures p(n)
  {
    if n == 0 {
    } else {
      Carried(p, n - 1);
      assert p(n - 1 + 1);
    }
  }

  /** It never is, in any story. */
  lemma {:induction false} StoryNeverAhead(w: World, m: Machine, events: seq<Event>, n: nat)
    requires FreshPointer(w, m) && DistinctStarts(events) && n <= |events|
    ensures Safe(Story(w, m, events[..n]), m, events)
  {
    var p := (i: nat) => i <= |events| && Safe(Story(w, m, events[..i]), m, events);
    assert p(0) by { SafeAtStart(w, m, events); }
    forall i: nat | i < n && p(i) ensures p(i + 1) {
      StorySafeStep(w, m, events, i);
    }
    Carried(p, n);
  }

  lemma {:induction false} StorySnoc(w: World, m: Machine, events: seq<Event>, n: nat)
    requires n < |events|
    ensures Story(w, m, events[..n + 1]) == After(Story(w, m, events[..n]), m, events[n])
  {
    assert events[..n + 1][..n] == events[..n];
  }

  lemma {:induction false} Chain<T>(f: nat -> seq<T>, k: nat, n: nat)
    requires k <= n && forall i: nat | k <= i < n :: f(i) <= f(i + 1)
    ensures f(k) <= f(n)
  {
    if k == n {
    } else {
      Chain(f, k, n - 1);
      assert f(n - 1) <= f(n - 1 + 1);
    }
  }

  lemma {:induction false} LinesStay(w: World, m: Machine, events: seq<Event>, k: nat, n: nat)
    requires k <= n <= |events|
    ensures Story(w, m, events[..k]).lines <= Story(w, m, events[..n]).lines
  {
    var f := (i: nat) => if i <= |events| then Story(w, m, events[..i]).lines else [];
    forall i: nat | k <= i < n ensures f(i) <= f(i + 1) {
      LinesGrowOnce(w, m, events, i);
    }
    Chain(f, k, n);
    assert f(k) == Story(w, m, events[..k]).lines && f(n) == Story(w, m, events[..n]).lines;
  }

  lemma {:induction false} LinesGrowOnce(w: World, m: Machine, events: seq<Event>, n: nat)
    requires n < |events|
    ensures Story(w, m, events[..n]).lines <= Story(w, m, events[..n + 1]).lines
  {
    StorySnoc(w, m, events, n);
    LinesGrow(Story(w, m, events[..n]), m, events[n]);
  }

  lemma {:induction false} LinesGrow(w: World, m: Machine, e: Event)
    ensures w.lines <= After(w, m, e).lines
  {
  }

  /**
   Exactly when a completed poll delivers: after any story of crashes, failed updates, cut creations and removals
   its whole log is written if and only if no cut creation is left standing or all of it had been written before.
   */
  lemma {:induction false} DeliversIff(w: World, m: Machine, events: seq<Event>, k: nat)
    requires FreshPointer(w, m) && DistinctStarts(events) && k < |events|
    requires Completed(Story(w, m, events[..k]), m, events[k])
    ensures AllWritten(LogIn(events[k]), Story(w, m, events[..k + 1]).lines, m) <==>
              !CutCreation(w, m, events[..k]) || AllWritten(LogIn(events[k]), Story(w, m, events[..k]).lines, m)
  {
    StoryNeverAhead(w, m, events, k);
    StorySnoc(w, m, events, k);
    ReadableUnlessCut(w, m, events[..k]);
    CompletedPollCovers(Story(w, m, events[..k]), m, events, k);
  }

  /**
   At least once: crashes, failed pointer updates and removed pointer files lose no entry of a completed poll,
   as long as no cut creation of the pointer file is left standing when it begins.
   */
  lemma {:induction false} AtLeastOnce(w: World, m: Machine, events: seq<Event>, k: nat, n: nat)
    requires FreshPointer(w, m) && DistinctStarts(events) && k < n <= |events|
    requires Completed(Story(w, m, events[..k]), m, events[k]) && !CutCreation(w, m, events[..k])
    ensures AllWritten(LogIn(events[k]), Story(w, m, events[..n]).lines, m)
  {
    DeliversIff(w, m, events, k);
    LinesStay(w, m, events, k + 1, n);
  }

  /** And nothing is made up: every line written is an entry of a log that some poll walked. */
  lemma {:induction false} NothingInvented(w: World, m: Machine, events: seq<Event>, line: Line)
    requires line in Story(w, m, events).lines && line !in w.lines
    ensures line.machine == m && exists i | 0 <= i < |events| :: WalksLog(events[i]) && line.entry in LogIn(events[i])
  {
    var n := |events| - 1;
    assert events != [];
    var before := Story(w, m, events[..n]);
    if line in before.lines {
      NothingInvented(w, m, events[..n], line);
      var i :| 0 <= i < n && WalksLog(events[..n][i]) && line.entry in LogIn(events[..n][i]);
      assert events[i] == events[..n][i];
    } else {
      PollWritesEntries(before, m, events[n], line);
    }
  }

  lemma PollWritesEntries(w: World, m: Machine, e: Event, line: Line)
    requires line in After(w, m, e).lines && line !in w.lines
    ensures line.machine == m && WalksLog(e) && line.entry in LogIn(e)
  {
    var w1 := w.(files := Created(w.files, m.serial, e.fate));
    var p := w1.files[m.serial].pointer;
    var es := Cut(Emitted(p, LogIn(e)), e.fate);
    assert line in Tag(m, es);
    var i :| 0 <= i < |es| && Tag(m, es)[i] == line;
    PickedFromLog(p.lastReadId, Resets(p, LogIn(e)), LogIn(e), |LogIn(e)|);
    assert es[i] in Emitted(p, LogIn(e));
  }

  lemma {:induction false} PickedFromLog(last: int, reset: bool, log: seq<Entry>, n: nat)
    requires n <= |log|
    ensures forall e | e in Picked(last, reset, log, n) :: e in log
  {
    if n == 0 {
    } else {
      PickedFromLog(last, reset, log, n - 1);
    }
  }

  /** From an unreadable pointer file on, no poll of any fate changes anything. */
  lemma {:induction false} GarbledPointerIsSilent(w: World, m: Machine, events: seq<Event>)
    requires !Readable(w, m) && forall i | 0 <= i < |events| :: events[i].Polls?
    ensures Story(w, m, events) == w
  {
    if events == [] {
    } else {
      GarbledPointerIsSilent(w, m, events[..|events| - 1]);
    }
  }

  /** Only removing the file, as happens when the machine leaves the list, ends that. */
  lemma {:induction false} RemovalRecovers(w: World, m: Machine)
    ensures FreshPointer(After(w, m, PointerRemoved), m) && After(w, m, PointerRemoved).lines == w.lines
  {
  }

  const FIRST := Entry(Some(1), Some(1), "")

  ghost function Answering(fate: Fate): Event {
    Polls(Answer(0, Http(200, Entries([FIRST]))), fate)
  }

  lemma {:induction false} AnsweringLog(fate: Fate)
    ensures WalksLog(Answering(fate)) && LogIn(Answering(fate)) == [FIRST] && GoodLog([FIRST])
  {
    var log := LogOf(Answering(fate).answer.response);
    assert |log| == 1 && log[0] == FIRST;
  }

  /** The failing side is reached: a first poll cut while it creates the pointer file, then one that completes. */
  ghost function CutThenPoll(): seq<Event> {
    [Answering(CreateCut), Answering(Finishes)]
  }

  lemma {:induction false} SameAnswerTwice(answer: Answer, fate1: Fate, fate2: Fate)
    requires Walkable(answer.response) && GoodLog(LogOf(answer.response))
    ensures DistinctStarts([Polls(answer, fate1), Polls(answer, fate2)])
  {
  }

  lemma {:induction false} SilentAfterCut(w: World, m: Machine, first: Event, second: Event)
    requires m.serial !in w.files && first.Polls? && first.fate.CreateCut? && second.Polls?
    ensures Story(w, m, [first, second]).lines == w.lines
  {
    var events, w1 := [first, second], After(w, m, first);
    StorySnoc(w, m, events, 0);
    StorySnoc(w, m, events, 1);
    assert events[..0] == [] && events[..2] == events;
    NotReadNothingWritten(w, m, first);
    FileAfter(w, m, first);
    NotReadNothingWritten(w1, m, second);
  }

  lemma {:induction false} CutCreationLosesEntries(m: Machine)
    ensures var w, events := World(map[], [], []), CutThenPoll();
            && FreshPointer(w, m) && DistinctStarts(events)
            && Completed(Story(w, m, events[..1]), m, events[1])
            && FIRST in LogIn(events[1]) && Line(FIRST, m) !in Story(w, m, events).lines
  {
    AnsweringLog(Finishes);
    SameAnswerTwice(Answering(Finishes).answer, CreateCut, Finishes);
    SilentAfterCut(World(map[], [], []), m, Answering(CreateCut), Answering(Finishes));
  }

  // ---- access failures are reported once per change ----

  /** The polls that could not reach the BMC or were answered with another status than 200. */
  ghost function Failures(answers: seq<Answer>): seq<Failure> {
    if answers == [] then []
    else
      Failures(answers[..|answers| - 1]) +
      match answers[|answers| - 1].response
      case TransportError(message) => [Tcp(message)]
      case Http(status, _) => if status != 200 then [Status(status)] else []
  }

  function Itself(f: Failure): Failure { f }

  /** Net errors have a text and HTTP errors a status. */
  ghost predicate Telling(f: Failure) {
    match f
    case Tcp(message) => message != ""
    case Status(code) => code != 0
  }

  ghost predicate Remembers(p: Pointer, fs: seq<Failure>) {
    if fs == [] then p.lastError == "" && p.lastHttpStatusCode == 0
    else
      match fs[|fs| - 1]
      case Tcp(message) => p.lastError == message && p.lastHttpStatusCode == 0
      case Status(code) => p.lastError == "" && p.lastHttpStatusCode == code
  }

  /** The reported failures are the failed polls with repetitions removed; successful polls do not show. */
  lemma {:induction false} FailuresReportedOnChange(w: World, m: Machine, answers: seq<Answer>)
    requires FreshPointer(w, m)
    requires forall f | f in Failures(answers) :: Telling(f)
    ensures Run(w, m, answers).alerts == w.alerts + LastOfRuns(Failures(answers), Itself)
    ensures Readable(Run(w, m, answers), m) && Remembers(PointerOf(Run(w, m, answers), m), Failures(answers))
  {
    if answers == [] {
    } else {
      var front, a := answers[..|answers| - 1], answers[|answers| - 1];
      assert forall f | f in Failures(front) :: f in Failures(answers);
      FailuresReportedOnChange(w, m, front);
      var f := AccessFailure(a.response);
      assert f.Some? ==> f.value in Failures(answers);
      ReportStep(Run(w, m, front), m, a.response, Failures(front), w.alerts);
    }
  }

  lemma ReportStep(w: World, m: Machine, r: Response, fs: seq<Failure>, before: seq<Failure>)
    requires Readable(w, m) && Remembers(PointerOf(w, m), fs)
    requires AccessFailure(r).Some? ==> Telling(AccessFailure(r).value)
    requires w.alerts == before + LastOfRuns(fs, Itself)
    ensures var w', f := Poll(w, m, r, Finishes), AccessFailure(r);
            var fs' := fs + if f.Some? then [f.value] else [];
            && Readable(w', m) && Remembers(PointerOf(w', m), fs')
            && w'.alerts == before + LastOfRuns(fs', Itself)
  {
    var f := AccessFailure(r);
    if f.Some? {
      CompressSnoc(fs, f.value);
    } else {
      assert fs + [] == fs;
    }
  }

  lemma {:induction false} CompressSnoc(fs: seq<Failure>, f: Failure)
    ensures LastOfRuns(fs + [f], Itself) ==
            if fs != [] && fs[|fs| - 1] == f then LastOfRuns(fs, Itself) else LastOfRuns(fs, Itself) + [f]
  {
    if fs == [] {
      assert fs + [f] == [f];
    } else {
      var runs, longer := LastOfRuns(fs, Itself), LastOfRuns(fs + [f], Itself);
      assert longer == (if fs[|fs| - 1] == f then runs[..|runs| - 1] + [f] else runs + [f]) &&
             runs != [] && runs[|runs| - 1] == fs[|fs| - 1] by {
        LastOfRunsSnoc(fs, f, Itself);
      }
      assert runs == runs[..|runs| - 1] + [runs[|runs| - 1]];
    }
  }
}
