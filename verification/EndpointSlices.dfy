/** machines-endpoints: splitting a target's addresses over EndpointSlices and removing the slices left over. */
module EndpointSlices {
  import opened Text
  import opened NamedPorts

  const MANAGED_BY := "endpointslice.kubernetes.io/managed-by"
  const SERVICE_NAME := "kubernetes.io/service-name"
  const MANAGER := "machines-endpoints.cybozu.io"

  datatype Slice = Slice(labels: map<string, string>, endpoints: seq<string>, ports: seq<NamedPort>)

  /** What a run is asked to bring about. */
  datatype Target = Target(name: string, ips: seq<string>, max: nat, ports: seq<NamedPort>)

  function SliceName(name: string, i: nat): string {
    name + "-" + Decimal(i)
  }

  predicate Managed(s: Slice, name: string) {
    && MANAGED_BY in s.labels && s.labels[MANAGED_BY] == MANAGER
    && SERVICE_NAME in s.labels && s.labels[SERVICE_NAME] == name
  }

  /** slices.Chunk. */
  function Chunks(ips: seq<string>, max: nat): seq<seq<string>>
    requires max > 0
  {
    if ips == [] then [] else if |ips| <= max then [ips] else [ips[..max]] + Chunks(ips[max..], max)
  }

  /** Server-side apply: labels are merged into those present, the lists are replaced. */
  function Applied(present: Option<Slice>, name: string, endpoints: seq<string>, ports: seq<NamedPort>): Slice {
    var labels := if present.Some? then present.value.labels else map[];
    Slice(labels[MANAGED_BY := MANAGER][SERVICE_NAME := name], endpoints, ports)
  }

  ghost predicate ChunkName(t: Target, n: string)
    requires t.max > 0
  {
    exists i | 0 <= i < |Chunks(t.ips, t.max)| :: n == SliceName(t.name, i)
  }

  /** The first j chunks have been applied, the others are untouched. */
  ghost predicate AppliedUpTo(before: map<string, Slice>, after: map<string, Slice>, t: Target, j: nat)
    requires t.max > 0
  {
    var chunks := Chunks(t.ips, t.max);
    && j <= |chunks|
    && forall i | 0 <= i < |chunks| ::
         var n := SliceName(t.name, i);
         Get(after, n) == if i < j then Some(Applied(Get(before, n), t.name, chunks[i], t.ports)) else Get(before, n)
  }

  /** The outcome of a complete run: the chunks are there, other managed slices are gone, the rest is as it was. */
  ghost predicate Converged(before: map<string, Slice>, after: map<string, Slice>, t: Target)
    requires t.max > 0
  {
    && AppliedUpTo(before, after, t, |Chunks(t.ips, t.max)|)
    && forall n: string | !ChunkName(t, n) ::
         Get(after, n) == if n in before && Managed(before[n], t.name) then None else Get(before, n)
  }

  /** The outcome of a run cut short anywhere: some first chunks applied, perhaps some stale slices gone. */
  ghost predicate Interrupted(before: map<string, Slice>, after: map<string, Slice>, t: Target)
    requires t.max > 0
  {
    && (exists j | 0 <= j <= |Chunks(t.ips, t.max)| :: AppliedUpTo(before, after, t, j))
    && forall n: string | !ChunkName(t, n) ::
         Get(after, n) == Get(before, n) || (Get(after, n) == None && Managed(before[n], t.name))
  }

  class Client {
    var services: map<string, seq<NamedPort>>
    var slices: map<string, Slice>
    var calls: nat
    const dryRun: bool
    const faults: set<nat>

    constructor (dryRun: bool, services: map<string, seq<NamedPort>>, slices: map<string, Slice>, faults: set<nat>)
      ensures this.dryRun == dryRun && this.services == services && this.slices == slices
      ensures this.faults == faults && calls == 0
    {
      this.dryRun, this.services, this.slices := dryRun, services, slices;
      this.faults, calls := faults, 0;
    }

    /** One API call, or one resource printed; it fails if it is among the faults. */
    method Call() returns (works: bool)
      modifies this`calls
      ensures calls == old(calls) + 1 && (works <==> old(calls) !in faults)
    {
      works := calls !in faults;
      calls := calls + 1;
    }

    /** It succeeds if and only if every call it makes does. */
    method UpdateTargetEndpoints(t: Target) returns (ok: bool)
      requires t.max > 0
      modifies this
      ensures dryRun ==> slices == old(slices) && services == old(services)
      ensures !dryRun && ok ==> Converged(old(slices), slices, t) && services == old(services)[t.name := t.ports]
      ensures !dryRun && !ok ==> Interrupted(old(slices), slices, t)
      ensures old(calls) < calls && (ok <==> NoFault(faults, old(calls), calls))
    {
      assert AppliedUpTo(slices, slices, t, 0);
      var works := Call();
      if !works { return false; }
      if !dryRun { services := services[t.name := t.ports]; }
      ghost var before := slices;
      var sliceNames;
      ok, sliceNames := ApplyChunks(t);
      if !ok || dryRun { return; }

      works := Call();
      if !works { return false; }
      assert forall n: string :: n in sliceNames <==> ChunkName(t, n);
      ghost var was := slices;
      ghost var left;
      ok, left := DeleteStale(t, sliceNames, before);
      SweepEnds(before, was, slices, t, sliceNames, left);
    }

    /** The loop over the chunks. */
    method ApplyChunks(t: Target) returns (ok: bool, sliceNames: set<string>)
      requires t.max > 0
      modifies this`slices, this`calls
      ensures dryRun ==> slices == old(slices)
      ensures !dryRun ==> exists j | 0 <= j <= |Chunks(t.ips, t.max)| :: AppliedUpTo(old(slices), slices, t, j)
      ensures !dryRun && ok ==> AppliedUpTo(old(slices), slices, t, |Chunks(t.ips, t.max)|)
      ensures forall n: string | !ChunkName(t, n) :: Get(slices, n) == Get(old(slices), n)
      ensures ok ==> sliceNames == set i | 0 <= i < |Chunks(t.ips, t.max)| :: SliceName(t.name, i)
      ensures old(calls) <= calls && (ok <==> NoFault(faults, old(calls), calls))
    {
      ghost var before := slices;
      var chunks := Chunks(t.ips, t.max);
      sliceNames := {};
      for sliceIndex := 0 to |chunks|
        invariant dryRun ==> slices == before
        invariant !dryRun ==> AppliedUpTo(before, slices, t, sliceIndex)
        invariant forall n: string | !ChunkName(t, n) :: Get(slices, n) == Get(before, n)
        invariant sliceNames == set i | 0 <= i < sliceIndex :: SliceName(t.name, i)
        invariant old(calls) <= calls && NoFault(faults, old(calls), calls)
      {
        ok := Call();
        assert !dryRun ==> AppliedUpTo(before, slices, t, sliceIndex);
        if !ok { return; }
        var sliceName := SliceName(t.name, sliceIndex);
        if !dryRun {
          ApplyChunk(before, slices, t, sliceIndex);
          slices := slices[sliceName := Applied(Get(slices, sliceName), t.name, chunks[sliceIndex], t.ports)];
        }
        sliceNames := sliceNames + {sliceName};
      }
      ok := true;
    }

    /** The loop over the listed slices. */
    method DeleteStale(t: Target, sliceNames: set<string>, ghost before: map<string, Slice>)
        returns (ok: bool, ghost left: set<string>)
      requires forall n: string | n !in sliceNames :: Get(slices, n) == Get(before, n)
      modifies this`slices, this`calls
      ensures Swept(before, old(slices), slices, t, sliceNames, left)
      ensures ok ==> left == {}
      ensures old(calls) <= calls && (ok <==> NoFault(faults, old(calls), calls))
    {
      ghost var was := slices;
      var todo := set n | n in slices && Managed(slices[n], t.name);
      SweepBegins(before, was, t, sliceNames, todo);
      while todo != {}
        invariant Swept(before, was, slices, t, sliceNames, todo)
        invariant old(calls) <= calls && NoFault(faults, old(calls), calls)
        decreases |todo|
      {
        var n :| n in todo;
        if n !in sliceNames {
          var works := Call();
          if !works {
            return false, todo;
          }
          slices := slices - {n};
        }
        todo := todo - {n};
      }
      return true, todo;
    }
  }

  ghost predicate Stale(before: map<string, Slice>, n: string, t: Target) {
    n in before && Managed(before[n], t.name)
  }

  /** Midway through the removal: of the stale slices, those in todo are left. */
  ghost predicate Swept(before: map<string, Slice>, was: map<string, Slice>, now: map<string, Slice>, t: Target,
                        names: set<string>, todo: set<string>) {
    && (forall n | n in names :: Get(now, n) == Get(was, n))
    && (forall n: string | n !in names ::
          Get(now, n) == if Stale(before, n, t) && n !in todo then None else Get(before, n))
    && (forall n | n in todo && n !in names :: Stale(before, n, t))
  }

  lemma SweepBegins(before: map<string, Slice>, was: map<string, Slice>, t: Target, names: set<string>,
                    todo: set<string>)
    requires todo == set n | n in was && Managed(was[n], t.name)
    requires forall n: string | n !in names :: Get(was, n) == Get(before, n)
    ensures Swept(before, was, was, t, names, todo)
  {
    forall n: string | n !in names ensures Stale(before, n, t) <==> n in todo {
      assert Get(was, n) == Get(before, n);
    }
  }

  lemma SweepEnds(before: map<string, Slice>, was: map<string, Slice>, now: map<string, Slice>, t: Target,
                  names: set<string>, todo: set<string>)
    requires t.max > 0 && forall n: string :: n in names <==> ChunkName(t, n)
    requires AppliedUpTo(before, was, t, |Chunks(t.ips, t.max)|) && Swept(before, was, now, t, names, todo)
    ensures Interrupted(before, now, t)
    ensures todo == {} ==> Converged(before, now, t)
  {
    SameChunks(was, now, before, t);
    forall n: string | !ChunkName(t, n)
      ensures Get(now, n) == if Stale(before, n, t) && n !in todo then None else Get(before, n)
    {
      assert n !in names;
    }
  }

  lemma SameChunks(was: map<string, Slice>, now: map<string, Slice>, before: map<string, Slice>, t: Target)
    requires t.max > 0 && AppliedUpTo(before, was, t, |Chunks(t.ips, t.max)|)
    requires forall n: string | ChunkName(t, n) :: Get(now, n) == Get(was, n)
    ensures AppliedUpTo(before, now, t, |Chunks(t.ips, t.max)|)
  {
    forall i | 0 <= i < |Chunks(t.ips, t.max)| ensures ChunkName(t, SliceName(t.name, i)) {
    }
  }

  /** Slice names split at their last dash. */
  lemma {:induction false} SliceNameInjective(a: string, i: nat, b: string, j: nat)
    requires SliceName(a, i) == SliceName(b, j)
    ensures a == b && i == j
  {
    DecimalRoundTrip(i);
    DecimalRoundTrip(j);
    SplitAtLastDash(a, Decimal(i), b, Decimal(j));
    DecimalInjective(i, j);
  }

  lemma {:induction false} SplitAtLastDash(a: string, d: string, b: string, e: string)
    requires AllDigits(d) && AllDigits(e) && a + "-" + d == b + "-" + e
    ensures a == b && d == e
  {
    var s, t := a + "-" + d, b + "-" + e;
    assert s[|a|] == '-' && t[|b|] == '-';
    assert forall k | |a| < k < |s| :: s[k] == d[k - |a| - 1];
    assert forall k | |b| < k < |t| :: t[k] == e[k - |b| - 1];
    assert |a| == |b|;
    assert a == s[..|a|] && b == t[..|b|] && d == s[|a| + 1..] && e == t[|b| + 1..];
  }

  lemma ApplyChunk(before: map<string, Slice>, slices: map<string, Slice>, t: Target, j: nat)
    requires t.max > 0 && AppliedUpTo(before, slices, t, j) && j < |Chunks(t.ips, t.max)|
    ensures var n := SliceName(t.name, j);
            && ChunkName(t, n)
            && var applied := Applied(Get(slices, n), t.name, Chunks(t.ips, t.max)[j], t.ports);
               AppliedUpTo(before, slices[n := applied], t, j + 1)
  {
    forall i | 0 <= i < |Chunks(t.ips, t.max)| && i != j ensures SliceName(t.name, i) != SliceName(t.name, j) {
      if SliceName(t.name, i) == SliceName(t.name, j) { SliceNameInjective(t.name, i, t.name, j); }
    }
  }

  // ---- what convergence means ----

  ghost function Concat(parts: seq<seq<string>>): seq<string> {
    if parts == [] then [] else parts[0] + Concat(parts[1..])
  }

  /** Chunks lose, repeat and reorder nothing, and are never empty or too long. */
  lemma {:induction false} ChunksPartition(ips: seq<string>, max: nat)
    requires max > 0
    ensures var chunks := Chunks(ips, max);
            && Concat(chunks) == ips
            && (forall i | 0 <= i < |chunks| :: 1 <= |chunks[i]| <= max)
            && (forall i | 0 <= i < |chunks| - 1 :: |chunks[i]| == max)
  {
    ChunksJoin(ips, max);
    ChunkSizes(ips, max);
  }

  lemma {:induction false} ChunksJoin(ips: seq<string>, max: nat)
    requires max > 0
    ensures Concat(Chunks(ips, max)) == ips
  {
    if ips != [] && |ips| <= max {
      assert [ips][1..] == [];
    } else if ips != [] {
      var rest := Chunks(ips[max..], max);
      ChunksJoin(ips[max..], max);
      assert ([ips[..max]] + rest)[1..] == rest;
      assert ips[..max] + ips[max..] == ips;
    }
  }

  lemma {:induction false} ChunkSizes(ips: seq<string>, max: nat)
    requires max > 0
    ensures forall i | 0 <= i < |Chunks(ips, max)| :: 1 <= |Chunks(ips, max)[i]| <= max
    ensures forall i | 0 <= i < |Chunks(ips, max)| - 1 :: |Chunks(ips, max)[i]| == max
  {
    if |ips| <= max {
    } else {
      ChunkSizes(ips[max..], max);
    }
  }

  lemma {:induction false} ChunksAreFewest(ips: seq<string>, max: nat)
    requires max > 0
    ensures max * (|Chunks(ips, max)| - 1) < |ips| <= max * |Chunks(ips, max)|
  {
    if |ips| <= max {
    } else {
      ChunksAreFewest(ips[max..], max);
      MultiplyNext(max, |Chunks(ips[max..], max)|);
    }
  }

  lemma MultiplyNext(max: nat, k: nat)
    ensures max * (k + 1) == max * k + max && max * k == max * (k - 1) + max
  {
  }

  /** The endpoints under slice name i, none if there is no such slice. */
  ghost function Part(slices: map<string, Slice>, name: string, i: nat): seq<string> {
    if SliceName(name, i) in slices then slices[SliceName(name, i)].endpoints else []
  }

  ghost predicate ExactSlice(after: map<string, Slice>, t: Target, i: nat) {
    var n := SliceName(t.name, i);
    n in after && Managed(after[n], t.name) && 1 <= |after[n].endpoints| <= t.max && after[n].ports == t.ports
  }

  /** The managed slices of the service are the chunks in order, and nothing else was touched. */
  lemma ConvergedIsExact(before: map<string, Slice>, after: map<string, Slice>, t: Target) returns (k: nat)
    requires t.max > 0 && Converged(before, after, t)
    ensures t.max * (k - 1) < |t.ips| <= t.max * k
    ensures forall i | 0 <= i < k :: ExactSlice(after, t, i)
    ensures forall n | n in after && Managed(after[n], t.name) :: exists i | 0 <= i < k :: n == SliceName(t.name, i)
    ensures Concat(seq(k, i requires i >= 0 => Part(after, t.name, i))) == t.ips
    ensures forall n | n in before && !Managed(before[n], t.name) && !ChunkName(t, n) ::
              n in after && after[n] == before[n]
  {
    ChunksPartition(t.ips, t.max);
    ChunksAreFewest(t.ips, t.max);
    var chunks := Chunks(t.ips, t.max);
    k := |chunks|;
    forall i | 0 <= i < k ensures ExactSlice(after, t, i) && Part(after, t.name, i) == chunks[i] {
      var n := SliceName(t.name, i);
      assert Get(after, n) == Some(Applied(Get(before, n), t.name, chunks[i], t.ports));
      assert |MANAGED_BY| != |SERVICE_NAME|;
    }
    assert seq(k, i requires i >= 0 => Part(after, t.name, i)) == chunks;
    forall n | !ChunkName(t, n) && (n in after || n in before)
      ensures n in after ==> !Managed(after[n], t.name)
      ensures n in before && !Managed(before[n], t.name) ==> n in after && after[n] == before[n]
    {
      assert Get(after, n) == if n in before && Managed(before[n], t.name) then None else Get(before, n);
    }
  }

  /** Whatever an interrupted run left, a complete run reaches the state it would have reached directly. */
  lemma InterruptionForgotten(before: map<string, Slice>, middle: map<string, Slice>,
                              direct: map<string, Slice>, resumed: map<string, Slice>, t: Target)
    requires t.max > 0 && Interrupted(before, middle, t)
    requires Converged(before, direct, t) && Converged(middle, resumed, t)
    ensures resumed == direct
  {
    var chunks := Chunks(t.ips, t.max);
    var j :| 0 <= j <= |chunks| && AppliedUpTo(before, middle, t, j);
    forall n: string ensures Get(resumed, n) == Get(direct, n) {
      if ChunkName(t, n) {
        var i :| 0 <= i < |chunks| && n == SliceName(t.name, i);
        ChunkForgotten(before, middle, direct, resumed, t, i, j);
      }
    }
    SameMap(resumed, direct);
  }

  lemma ChunkForgotten(before: map<string, Slice>, middle: map<string, Slice>,
                       direct: map<string, Slice>, resumed: map<string, Slice>, t: Target, i: nat, j: nat)
    requires t.max > 0 && i < |Chunks(t.ips, t.max)| && AppliedUpTo(before, middle, t, j)
    requires AppliedUpTo(before, direct, t, |Chunks(t.ips, t.max)|)
    requires AppliedUpTo(middle, resumed, t, |Chunks(t.ips, t.max)|)
    ensures var n := SliceName(t.name, i); Get(resumed, n) == Get(direct, n)
  {
    var n, chunk := SliceName(t.name, i), Chunks(t.ips, t.max)[i];
    var once := Applied(Get(before, n), t.name, chunk, t.ports);
    assert Get(direct, n) == Some(once);
    assert Get(resumed, n) == Some(Applied(Get(middle, n), t.name, chunk, t.ports));
    assert Applied(Some(once), t.name, chunk, t.ports).labels == once.labels;
  }

  /** A run after a complete run changes nothing. */
  lemma RepeatIsNoOp(before: map<string, Slice>, after: map<string, Slice>, again: map<string, Slice>, t: Target)
    requires t.max > 0 && Converged(before, after, t) && Converged(after, again, t)
    ensures again == after
  {
    assert AppliedUpTo(before, after, t, |Chunks(t.ips, t.max)|);
    forall n: string | !ChunkName(t, n)
      ensures Get(after, n) == Get(before, n) || (Get(after, n) == None && Managed(before[n], t.name))
    {
    }
    InterruptionForgotten(before, after, after, again, t);
  }

  // ---- names and labels, spelled out ----

  /** Slice i of a target is called after it, with a dash and the number. */
  lemma {:induction false} SliceNameMeans(name: string, i: nat, n: string)
    ensures n == SliceName(name, i) <==> exists d :: Numeral(d, i) && n == name + "-" + d
  {
    NumeralIff(Decimal(i), i);
    if d :| Numeral(d, i) && n == name + "-" + d { NumeralIff(d, i); }
  }

  /** A slice belongs to a target if it carries the program's mark and the service's name. */
  lemma {:induction false} ManagedMeans(s: Slice, name: string)
    ensures Managed(s, name) <==>
              Get(s.labels, "endpointslice.kubernetes.io/managed-by") == Some("machines-endpoints.cybozu.io") &&
              Get(s.labels, "kubernetes.io/service-name") == Some(name)
  {
  }

  /** Applying sets these two labels, the endpoints and the ports, and leaves all other labels. */
  lemma {:induction false} AppliedMeans(present: Option<Slice>, name: string, endpoints: seq<string>,
                                        ports: seq<NamedPort>, k: string)
    ensures var s := Applied(present, name, endpoints, ports);
            && s.endpoints == endpoints && s.ports == ports && Managed(s, name)
            && (k != "endpointslice.kubernetes.io/managed-by" && k != "kubernetes.io/service-name" ==>
                  Get(s.labels, k) == if present.Some? then Get(present.value.labels, k) else None)
  {
    assert |MANAGED_BY| != |SERVICE_NAME|;
  }

  // ---- two targets ----

  lemma {:induction false} NamesApart(t: Target, u: Target, n: string)
    requires t.max > 0 && u.max > 0 && t.name != u.name && ChunkName(t, n)
    ensures !ChunkName(u, n)
  {
    if ChunkName(u, n) {
      var i :| 0 <= i < |Chunks(t.ips, t.max)| && n == SliceName(t.name, i);
      var j :| 0 <= j < |Chunks(u.ips, u.max)| && n == SliceName(u.name, j);
      SliceNameInjective(t.name, i, u.name, j);
    }
  }

  /** After a run the managed slices of the service are its chunks. */
  lemma {:induction false} ManagedIsChunk(before: map<string, Slice>, after: map<string, Slice>, t: Target, n: string)
    requires t.max > 0 && Converged(before, after, t) && n in after && Managed(after[n], t.name)
    ensures ChunkName(t, n)
  {
  }

  /** A run for one target leaves the slices of another target as they are. */
  lemma {:induction false} OtherTargetKept(before: map<string, Slice>, middle: map<string, Slice>,
                                           after: map<string, Slice>, t: Target, u: Target, n: string)
    requires t.max > 0 && u.max > 0 && t.name != u.name
    requires Converged(before, middle, t) && Converged(middle, after, u)
    ensures (n in middle && Managed(middle[n], t.name)) || (n in after && Managed(after[n], t.name)) ==>
              Get(after, n) == Get(middle, n)
    ensures ChunkName(t, n) ==> Get(after, n) == Get(middle, n)
  {
    if ChunkName(u, n) {
      var j :| 0 <= j < |Chunks(u.ips, u.max)| && n == SliceName(u.name, j);
      assert AppliedUpTo(middle, after, u, |Chunks(u.ips, u.max)|);
      assert Get(after, n) == Some(Applied(Get(middle, n), u.name, Chunks(u.ips, u.max)[j], u.ports));
      if n in middle && Managed(middle[n], t.name) { ManagedIsChunk(before, middle, t, n); NamesApart(t, u, n); }
      if ChunkName(t, n) { NamesApart(t, u, n); }
    } else {
      assert Get(after, n) == if n in middle && Managed(middle[n], u.name) then None else Get(middle, n);
      if ChunkName(t, n) { ChunkIsManaged(before, middle, t, n); }
    }
  }

  lemma {:induction false} ChunkIsManaged(before: map<string, Slice>, after: map<string, Slice>, t: Target, n: string)
    requires t.max > 0 && Converged(before, after, t) && ChunkName(t, n)
    ensures n in after && Managed(after[n], t.name)
  {
    var i :| 0 <= i < |Chunks(t.ips, t.max)| && n == SliceName(t.name, i);
    assert Get(after, n) == Some(Applied(Get(before, n), t.name, Chunks(t.ips, t.max)[i], t.ports));
    assert |MANAGED_BY| != |SERVICE_NAME|;
  }

  /** Running both targets again changes nothing. */
  lemma {:induction false} RepeatBothIsNoOp(s0: map<string, Slice>, s1: map<string, Slice>, s2: map<string, Slice>,
                                            s3: map<string, Slice>, s4: map<string, Slice>, t: Target, u: Target)
    requires t.max > 0 && u.max > 0 && t.name != u.name
    requires Converged(s0, s1, t) && Converged(s1, s2, u) && Converged(s2, s3, t) && Converged(s3, s4, u)
    ensures s3 == s2 && s4 == s2
  {
    forall n: string ensures Get(s3, n) == Get(s2, n) {
      OtherTargetKept(s0, s1, s2, t, u, n);
      if ChunkName(t, n) {
        AppliedAgain(s0, s1, s2, s3, t, n);
      } else {
        assert Get(s3, n) == if n in s2 && Managed(s2[n], t.name) then None else Get(s2, n);
        if n in s2 && Managed(s2[n], t.name) { ManagedIsChunk(s0, s1, t, n); }
      }
    }
    SameMap(s3, s2);
    RepeatIsNoOp(s1, s2, s4, u);
  }

  lemma {:induction false} AppliedAgain(s0: map<string, Slice>, s1: map<string, Slice>, s2: map<string, Slice>,
                                        s3: map<string, Slice>, t: Target, n: string)
    requires t.max > 0 && Converged(s0, s1, t) && Converged(s2, s3, t) && ChunkName(t, n) && Get(s2, n) == Get(s1, n)
    ensures Get(s3, n) == Get(s2, n)
  {
    var i :| 0 <= i < |Chunks(t.ips, t.max)| && n == SliceName(t.name, i);
    var once := Applied(Get(s0, n), t.name, Chunks(t.ips, t.max)[i], t.ports);
    assert Get(s1, n) == Some(once);
    assert Get(s3, n) == Some(Applied(Get(s2, n), t.name, Chunks(t.ips, t.max)[i], t.ports));
    assert Applied(Some(once), t.name, Chunks(t.ips, t.max)[i], t.ports).labels == once.labels;
  }
}
