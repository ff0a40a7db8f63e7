/** bmc-log-collector: one poll of a BMC's system event log against the persisted pointer file. */
module BmcLogCollector {
  import opened Text

  datatype Pointer = Pointer(lastReadId: int, lastError: string, lastHttpStatusCode: int, firstCreateTime: int)

  const ZERO := Pointer(0, "", 0, 0)

  /** A log entry: the result of Atoi on Id, of RFC 3339 parsing of Created (Unix seconds), and the rest. */
  datatype Entry = Entry(id: Option<int>, created: Option<int>, message: string)

  datatype Machine = Machine(serial: string, bmcIP: string, nodeIP: string)

  /** What the writer receives: an entry marked with the machine it came from. */
  datatype Line = Line(entry: Entry, machine: Machine)

  /** What the BMC answers. `sel` lists the newest entry first. */
  datatype Body = Undecodable | Entries(sel: seq<Entry>)
  datatype Response = TransportError(message: string) | Http(status: int, body: Body)

  datatype Failure = Tcp(message: string) | Status(code: int)

  /** A pointer file holds a whole pointer, or bytes that do not decode. */
  datatype Content = Garbled | Stored(pointer: Pointer)

  /** How far a poll gets. `UpdateCut(s)`: the pointer update stops after s of create, write, sync. */
  datatype Fate =
    | Finishes
    | CreateFails
    | CreateCut
    | Killed(writes: nat)
    | UpdateCut(stage: nat)

  datatype World = World(files: map<string, Content>, lines: seq<Line>, alerts: seq<Failure>)

  function Temp(path: string): string { "_" + path }

  // ---- what one poll does ----

  function Oldest(sel: seq<Entry>): Entry
    requires sel != []
  {
    sel[|sel| - 1]
  }

  /** The access failure a response stands for, if any. */
  function AccessFailure(r: Response): Option<Failure> {
    match r
    case TransportError(message) => Some(Tcp(message))
    case Http(status, _) => if status != 200 then Some(Status(status)) else None
  }

  predicate Walkable(r: Response) {
    r.Http? && r.status == 200 && r.body.Entries? && r.body.sel != [] && Oldest(r.body.sel).created.Some?
  }

  /** The log of a walkable response, oldest entry first. */
  function LogOf(r: Response): (log: seq<Entry>)
    requires Walkable(r)
    ensures |log| == |r.body.sel| > 0 && log[0].created.Some?
    ensures forall i | 0 <= i < |log| :: log[i] == r.body.sel[|log| - 1 - i]
  {
    var sel := r.body.sel;
    seq(|sel|, i requires 0 <= i < |sel| => sel[|sel| - 1 - i])
  }

  /** Entry i is emitted: after a reset every numbered entry is; otherwise only a new strict maximum above `last`. */
  ghost predicate Picks(last: int, reset: bool, log: seq<Entry>, i: nat)
    requires i < |log|
  {
    && log[i].id.Some?
    && (reset || (last < log[i].id.value &&
                  forall j | 0 <= j < i && log[j].id.Some? :: log[j].id.value < log[i].id.value))
  }

  /** The emitted entries among the n oldest, in order. */
  ghost function Picked(last: int, reset: bool, log: seq<Entry>, n: nat): (es: seq<Entry>)
    requires n <= |log|
    ensures |es| <= n
  {
    if n == 0 then []
    else Picked(last, reset, log, n - 1) + (if Picks(last, reset, log, n - 1) then [log[n - 1]] else [])
  }

  /** LastReadId once the n oldest entries have been walked. */
  ghost function LastAfter(last: int, reset: bool, log: seq<Entry>, n: nat): int
    requires n <= |log|
  {
    if n == 0 then last
    else if Picks(last, reset, log, n - 1) then log[n - 1].id.value
    else LastAfter(last, reset, log, n - 1)
  }

  /** Without a reset LastReadId is the running maximum of its start value and the ids seen. */
  lemma {:induction false} LastAfterIsMaximum(last: int, log: seq<Entry>, n: nat)
    requires n <= |log|
    ensures last <= LastAfter(last, false, log, n)
    ensures forall j | 0 <= j < n && log[j].id.Some? :: log[j].id.value <= LastAfter(last, false, log, n)
  {
    if n == 0 {
    } else {
      LastAfterIsMaximum(last, log, n - 1);
    }
  }

  /** Comparing with LastReadId alone decides whether an entry is a new maximum. */
  lemma PickDecision(last: int, reset: bool, log: seq<Entry>, n: nat)
    requires n < |log|
    ensures log[n].id.None? ==> !Picks(last, reset, log, n)
    ensures log[n].id.Some? ==>
              (Picks(last, reset, log, n) <==> reset || LastAfter(last, reset, log, n) < log[n].id.value)
  {
    if !reset {
      LastAfterIsMaximum(last, log, n);
      LastAfterIsReached(last, log, n);
    }
  }

  lemma {:induction false} LastAfterIsReached(last: int, log: seq<Entry>, n: nat)
    requires n <= |log|
    ensures LastAfter(last, false, log, n) == last ||
            exists j | 0 <= j < n :: log[j].id == Some(LastAfter(last, false, log, n))
  {
    if n > 0 && !Picks(last, false, log, n - 1) {
      LastAfterIsReached(last, log, n - 1);
    }
  }

  /** The files after updateLastPointer: the old pointer stays in place until the rename. */
  function Saved(files: map<string, Content>, path: string, p: Pointer, fate: Fate): map<string, Content> {
    match fate
    case Killed(_) => files
    case UpdateCut(stage) =>
      if stage == 0 then files
      else if stage == 1 then files[Temp(path) := Garbled]
      else files[Temp(path) := Stored(p)]
    case _ => (files - {Temp(path)})[path := Stored(p)]
  }

  function Noted(p: Pointer, f: Failure): Pointer {
    match f
    case Tcp(message) => p.(lastHttpStatusCode := 0, lastError := message)
    case Status(code) => p.(lastHttpStatusCode := code, lastError := "")
  }

  predicate Repeats(p: Pointer, f: Failure) {
    match f
    case Tcp(message) => p.lastError == message
    case Status(code) => p.lastHttpStatusCode == code
  }

  ghost function Tag(m: Machine, es: seq<Entry>): seq<Line> {
    seq(|es|, i requires 0 <= i < |es| => Line(es[i], m))
  }

  ghost function Resets(p: Pointer, log: seq<Entry>): bool
    requires log != [] && log[0].created.Some?
  {
    p.firstCreateTime != log[0].created.value
  }

  ghost function Emitted(p: Pointer, log: seq<Entry>): seq<Entry>
    requires log != [] && log[0].created.Some?
  {
    Picked(p.lastReadId, Resets(p, log), log, |log|)
  }

  ghost function Advanced(p: Pointer, log: seq<Entry>): Pointer
    requires log != [] && log[0].created.Some?
  {
    p.(lastReadId := LastAfter(p.lastReadId, Resets(p, log), log, |log|), firstCreateTime := log[0].created.value)
  }

  ghost function Created(files: map<string, Content>, path: string, fate: Fate): map<string, Content> {
    if path in files || fate == CreateFails then files
    else if fate == CreateCut then files[path := Garbled]
    else files[path := Stored(ZERO)]
  }

  ghost function Cut<T>(xs: seq<T>, fate: Fate): seq<T> {
    if fate.Killed? && fate.writes < |xs| then xs[..fate.writes] else xs
  }

  /** The poll itself, once the pointer has been read. */
  ghost function Polled(w: World, m: Machine, p: Pointer, r: Response, fate: Fate): World {
    var failure := AccessFailure(r);
    if failure.Some? then
      World(Saved(w.files, m.serial, Noted(p, failure.value), fate), w.lines,
            w.alerts + if Repeats(p, failure.value) then [] else [failure.value])
    else if !Walkable(r) then w
    else
      World(Saved(w.files, m.serial, Advanced(p, LogOf(r)), fate),
            w.lines + Tag(m, Cut(Emitted(p, LogOf(r)), fate)), w.alerts)
  }

  ghost function Poll(w: World, m: Machine, r: Response, fate: Fate): World {
    var w1 := w.(files := Created(w.files, m.serial, fate));
    if m.serial !in w1.files || w1.files[m.serial].Garbled? then w1
    else Polled(w1, m, w1.files[m.serial].pointer, r, fate)
  }

  // ---- what one poll means, answer by answer ----

  /** Forward through a log: each entry whose id is above all ids before it and above `last`. */
  ghost function Maxima(last: int, log: seq<Entry>): seq<Entry>
    decreases |log|
  {
    if log == [] then []
    else if log[0].id.Some? && log[0].id.value > last then [log[0]] + Maxima(log[0].id.value, log[1..])
    else Maxima(last, log[1..])
  }

  ghost function Highest(last: int, log: seq<Entry>): int
    decreases |log|
  {
    if log == [] then last
    else Highest(if log[0].id.Some? && log[0].id.value > last then log[0].id.value else last, log[1..])
  }

  /** Every entry with a number for an id, in order. */
  ghost function Numbered(log: seq<Entry>): seq<Entry> {
    if log == [] then [] else (if log[0].id.Some? then [log[0]] else []) + Numbered(log[1..])
  }

  ghost function LastNumber(last: int, log: seq<Entry>): int
    decreases |log|
  {
    if log == [] then last else LastNumber(if log[0].id.Some? then log[0].id.value else last, log[1..])
  }

  lemma {:induction false} MaximaSnoc(last: int, log: seq<Entry>, e: Entry)
    ensures var high := Highest(last, log);
            && Maxima(last, log + [e]) == Maxima(last, log) + (if e.id.Some? && e.id.value > high then [e] else [])
            && Highest(last, log + [e]) == if e.id.Some? && e.id.value > high then e.id.value else high
    decreases |log|
  {
    if log == [] {
      assert [e][1..] == [] && log + [e] == [e];
    } else {
      assert (log + [e])[1..] == log[1..] + [e];
      MaximaSnoc(if log[0].id.Some? && log[0].id.value > last then log[0].id.value else last, log[1..], e);
    }
  }

  lemma {:induction false} NumberedSnoc(last: int, log: seq<Entry>, e: Entry)
    ensures Numbered(log + [e]) == Numbered(log) + (if e.id.Some? then [e] else [])
    ensures LastNumber(last, log + [e]) == if e.id.Some? then e.id.value else LastNumber(last, log)
    decreases |log|
  {
    if log == [] {
      assert [e][1..] == [] && log + [e] == [e];
    } else {
      assert (log + [e])[1..] == log[1..] + [e];
      NumberedSnoc(if log[0].id.Some? then log[0].id.value else last, log[1..], e);
    }
  }

  /** Without a reset the running maxima are emitted, after one every numbered entry. */
  lemma {:induction false} PickedMeans(last: int, log: seq<Entry>, n: nat)
    requires n <= |log|
    ensures Picked(last, false, log, n) == Maxima(last, log[..n])
    ensures LastAfter(last, false, log, n) == Highest(last, log[..n])
    ensures Picked(last, true, log, n) == Numbered(log[..n])
    ensures LastAfter(last, true, log, n) == LastNumber(last, log[..n])
  {
    if n == 0 {
      assert log[..0] == [];
    } else {
      PickedMeans(last, log, n - 1);
      assert log[..n] == log[..n - 1] + [log[n - 1]];
      MaximaSnoc(last, log[..n - 1], log[n - 1]);
      NumberedSnoc(last, log[..n - 1], log[n - 1]);
      PickDecision(last, false, log, n - 1);
    }
  }

  /** Only this has changed: the machine's pointer, and lines for the given entries. */
  ghost predicate Leaves(w: World, w': World, m: Machine, p: Pointer, es: seq<Entry>) {
    && m.serial in w'.files && w'.files[m.serial] == Stored(p)
    && |w'.lines| == |w.lines| + |es|
    && (forall i | 0 <= i < |w.lines| :: w'.lines[i] == w.lines[i])
    && (forall i | 0 <= i < |es| :: w'.lines[|w.lines| + i] == Line(es[i], m))
  }

  /** A poll of a BMC that cannot be reached. */
  lemma {:induction false} UnreachablePoll(w: World, m: Machine, p: Pointer, message: string)
    requires if m.serial in w.files then w.files[m.serial] == Stored(p) else p == Pointer(0, "", 0, 0)
    ensures var w' := Poll(w, m, TransportError(message), Finishes);
            && Leaves(w, w', m, Pointer(p.lastReadId, message, 0, p.firstCreateTime), [])
            && w'.alerts == w.alerts + if message == p.lastError then [] else [Tcp(message)]
  {
    assert |Temp(m.serial)| == |m.serial| + 1;
  }

  /** A poll that is answered with any other status than 200. */
  lemma {:induction false} RefusedPoll(w: World, m: Machine, p: Pointer, status: int, body: Body)
    requires if m.serial in w.files then w.files[m.serial] == Stored(p) else p == Pointer(0, "", 0, 0)
    requires status != 200
    ensures var w' := Poll(w, m, Http(status, body), Finishes);
            && Leaves(w, w', m, Pointer(p.lastReadId, "", status, p.firstCreateTime), [])
            && w'.alerts == w.alerts + if status == p.lastHttpStatusCode then [] else [Status(status)]
  {
    assert |Temp(m.serial)| == |m.serial| + 1;
  }

  /** A poll whose answer cannot be used: not decodable, no entries, or no time on the oldest one. */
  lemma {:induction false} UselessPoll(w: World, m: Machine, p: Pointer, body: Body)
    requires if m.serial in w.files then w.files[m.serial] == Stored(p) else p == Pointer(0, "", 0, 0)
    requires body.Undecodable? || body.sel == [] || body.sel[|body.sel| - 1].created.None?
    ensures var w' := Poll(w, m, Http(200, body), Finishes); Leaves(w, w', m, p, []) && w'.alerts == w.alerts
  {
  }

  /** A poll with a log: new maxima if its oldest entry is as old as before, every numbered entry otherwise. */
  lemma {:induction false} UsefulPoll(w: World, m: Machine, p: Pointer, sel: seq<Entry>, log: seq<Entry>, start: int)
    requires if m.serial in w.files then w.files[m.serial] == Stored(p) else p == Pointer(0, "", 0, 0)
    requires |log| == |sel| > 0 && (forall i | 0 <= i < |log| :: log[i] == sel[|sel| - 1 - i])
    requires log[0].created == Some(start)
    ensures var w' := Poll(w, m, Http(200, Entries(sel)), Finishes);
            var same := p.firstCreateTime == start;
            var last := if same then Highest(p.lastReadId, log) else LastNumber(p.lastReadId, log);
            && Leaves(w, w', m, p.(lastReadId := last, firstCreateTime := start),
                      if same then Maxima(p.lastReadId, log) else Numbered(log))
            && w'.alerts == w.alerts
  {
    var r := Http(200, Entries(sel));
    assert LogOf(r) == log;
    LogPoll(w, m, p, r);
    EmittedMeans(p, log);
  }

  lemma {:induction false} LogPoll(w: World, m: Machine, p: Pointer, r: Response)
    requires if m.serial in w.files then w.files[m.serial] == Stored(p) else p == Pointer(0, "", 0, 0)
    requires Walkable(r)
    ensures var w' := Poll(w, m, r, Finishes);
            Leaves(w, w', m, Advanced(p, LogOf(r)), Emitted(p, LogOf(r))) && w'.alerts == w.alerts
  {
    assert |Temp(m.serial)| == |m.serial| + 1;
  }

  lemma {:induction false} EmittedMeans(p: Pointer, log: seq<Entry>)
    requires log != [] && log[0].created.Some?
    ensures var start := log[0].created.value;
            if p.firstCreateTime == start
            then Emitted(p, log) == Maxima(p.lastReadId, log) &&
                 Advanced(p, log) == p.(lastReadId := Highest(p.lastReadId, log), firstCreateTime := start)
            else Emitted(p, log) == Numbered(log) &&
                 Advanced(p, log) == p.(lastReadId := LastNumber(p.lastReadId, log), firstCreateTime := start)
  {
    assert log[..|log|] == log;
    PickedMeans(p.lastReadId, log, |log|);
  }

  // ---- the program ----

  class SelCollector {
    var files: map<string, Content>
    var lines: seq<Line>
    var alerts: seq<Failure>

    ghost function View(): World
      reads this
    {
      World(files, lines, alerts)
    }

    constructor ()
      ensures View() == World(map[], [], [])
    {
      files, lines, alerts := map[], [], [];
    }

    method CheckAndCreatePointerFile(path: string, fate: Fate) returns (ok: bool)
      modifies this`files
      ensures files == Created(old(files), path, fate)
      ensures !ok <==> path !in old(files) && (fate.CreateFails? || fate.CreateCut?)
    {
      if path in files { return true; }
      if fate.CreateFails? { return false; }
      files := files[path := Garbled];
      if fate.CreateCut? { return false; }
      files := files[path := Stored(ZERO)];
      return true;
    }

    /** Written to a side file, then renamed over the pointer file. */
    method UpdateLastPointer(p: Pointer, path: string, fate: Fate) returns (ok: bool)
      modifies this`files
      ensures files == Saved(old(files), path, p, fate)
      ensures ok <==> !fate.Killed? && !fate.UpdateCut?
      ensures !ok ==> (path in files <==> path in old(files)) && (path in files ==> files[path] == old(files)[path])
      ensures ok ==> path in files && files[path] == Stored(p) && "_" + path !in files
    {
      assert |Temp(path)| == |path| + 1;
      if fate.Killed? || fate == UpdateCut(0) { return false; }
      files := files[Temp(path) := Garbled];
      if fate == UpdateCut(1) { return false; }
      files := files[Temp(path) := Stored(p)];
      if fate.UpdateCut? { return false; }
      files := files - {Temp(path)};
      files := files[path := Stored(p)];
      return true;
    }

    method CollectSystemEventLog(m: Machine, r: Response, fate: Fate)
      modifies this
      ensures View() == Poll(old(View()), m, r, fate)
    {
      var ok := CheckAndCreatePointerFile(m.serial, fate);
      if !ok { return; }
      if files[m.serial].Garbled? { return; }
      var lastPtr := files[m.serial].pointer;

      match r {
        case TransportError(message) =>
          if lastPtr.lastError != message {
            alerts := alerts + [Tcp(message)];
          }
          lastPtr := lastPtr.(lastHttpStatusCode := 0);
          lastPtr := lastPtr.(lastError := message);
          ok := UpdateLastPointer(lastPtr, m.serial, fate);
          return;
        case Http(status, body) =>
          if status != 200 {
            if status != lastPtr.lastHttpStatusCode {
              alerts := alerts + [Status(status)];
            }
            lastPtr := lastPtr.(lastHttpStatusCode := status);
            lastPtr := lastPtr.(lastError := "");
            ok := UpdateLastPointer(lastPtr, m.serial, fate);
            return;
          }
          if body.Undecodable? || body.sel == [] { return; }
          if Oldest(body.sel).created.None? { return; }
          var firstCreateTime := Oldest(body.sel).created.value;
          lastPtr := WalkEntries(m, body.sel, lastPtr, firstCreateTime, fate, r);
          lastPtr := lastPtr.(firstCreateTime := firstCreateTime);
          ok := UpdateLastPointer(lastPtr, m.serial, fate);
      }
    }

    /** The backward loop over the members. */
    method WalkEntries(m: Machine, sel: seq<Entry>, start: Pointer, firstCreateTime: int, fate: Fate, ghost r: Response)
        returns (lastPtr: Pointer)
      requires Walkable(r) && sel == r.body.sel && Oldest(sel).created == Some(firstCreateTime)
      modifies this`lines
      ensures lines == old(lines) + Tag(m, Cut(Emitted(start, LogOf(r)), fate))
      ensures !fate.Killed? ==> lastPtr == Advanced(start, LogOf(r)).(firstCreateTime := start.firstCreateTime)
    {
      ghost var log := LogOf(r);
      ghost var reset := Resets(start, log);
      lastPtr := start;
      var written := 0;
      for n := 0 to |sel|
        invariant lastPtr == start.(lastReadId := LastAfter(start.lastReadId, reset, log, n))
        invariant written == |Picked(start.lastReadId, reset, log, n)|
        invariant lines == old(lines) + Tag(m, Picked(start.lastReadId, reset, log, n))
        invariant fate.Killed? ==> written <= fate.writes
      {
        var v := sel[|sel| - 1 - n];
        assert v == log[n];
        PickDecision(start.lastReadId, reset, log, n);
        if v.id.Some? {
          if lastPtr.lastReadId < v.id.value || lastPtr.firstCreateTime != firstCreateTime {
            if fate == Killed(written) {
              CutAt(start.lastReadId, reset, log, n, fate);
              return;
            }
            TagSnoc(m, Picked(start.lastReadId, reset, log, n), v);
            lines := lines + [Line(v, m)];
            lastPtr := lastPtr.(lastReadId := v.id.value);
            written := written + 1;
          }
        }
      }
    }

    /** Files of machines that left the list go, unless the removal fails. */
    method DeletePtrFileDisappearedSerial(machines: seq<Machine>, stuck: set<string>)
      modifies this`files
      ensures forall f :: f in files <==>
                f in old(files) && (f in stuck || exists i | 0 <= i < |machines| :: machines[i].serial == f)
      ensures forall f | f in files :: files[f] == old(files)[f]
    {
      var machineExist: set<string> := {};
      for n := 0 to |machines|
        invariant forall f :: f in machineExist <==> exists i | 0 <= i < n :: machines[i].serial == f
      {
        machineExist := machineExist + {machines[n].serial};
      }
      var todo := files.Keys;
      while todo != {}
        invariant todo <= files.Keys <= old(files).Keys
        invariant forall f | f in old(files) && f !in todo :: f in files <==> f in machineExist || f in stuck
        invariant forall f | f in files :: files[f] == old(files)[f]
        decreases |todo|
      {
        var f :| f in todo;
        todo := todo - {f};
        if f !in machineExist && f !in stuck {
          files := files - {f};
        }
      }
    }
  }

  lemma CutAt(last: int, reset: bool, log: seq<Entry>, n: nat, fate: Fate)
    requires n < |log| && Picks(last, reset, log, n)
    requires fate == Killed(|Picked(last, reset, log, n)|)
    ensures Cut(Picked(last, reset, log, |log|), fate) == Picked(last, reset, log, n)
  {
    PickedGrows(last, reset, log, n + 1, |log|);
    PickedGrows(last, reset, log, n, |log|);
  }

  lemma TagSnoc(m: Machine, es: seq<Entry>, e: Entry)
    ensures Tag(m, es + [e]) == Tag(m, es) + [Line(e, m)]
  {
  }

  lemma {:induction false} PickedGrows(last: int, reset: bool, log: seq<Entry>, k: nat, n: nat)
    requires k <= n <= |log|
    ensures Picked(last, reset, log, k) <= Picked(last, reset, log, n)
  {
    if k == n {
    } else {
      PickedGrows(last, reset, log, k, n - 1);
    }
  }
}
