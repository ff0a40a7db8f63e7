/** machines-endpoints as a whole run: the port flags, then the two monitoring targets one after the other. */
module MachinesEndpoints {
  import opened Text
  import opened NamedPorts
  import opened EndpointSlices

  const ALL_SERVERS := "all-servers-targets"
  const BOOT_SERVERS := "boot-servers-targets"

  /** validateMaxEndpointsPerSlice. */
  predicate ValidMax(max: int) {
    0 < max <= 1000
  }

  /** The flags and the addresses of the machines. */
  datatype Options = Options(allPorts: seq<string>, bootPorts: seq<string>, max: int)

  /** A target without ports is left alone, the others are brought about with the ports of their flags. */
  ghost predicate Brought(before: map<string, Slice>, after: map<string, Slice>, specs: seq<string>, t: Target) {
    && t.max > 0 && IsResult(specs, t.ports)
    && if specs == [] then after == before else Converged(before, after, t)
  }

  method Sync(client: Client, o: Options, allIPs: seq<string>, bootIPs: seq<string>)
      returns (refused: bool, ok: bool, ghost t: Target, ghost u: Target, ghost middle: map<string, Slice>)
    modifies client
    ensures refused <==> !(Acceptable(o.allPorts) && Acceptable(o.bootPorts) && 1 <= o.max <= 1000)
    ensures ok <==> !refused && NoFault(client.faults, old(client.calls), client.calls)
    ensures refused ==>  client.slices == old(client.slices) && client.services == old(client.services)
    ensures ok ==> t.name == "all-servers-targets" && t.ips == allIPs && t.max == o.max
    ensures ok ==> u.name == "boot-servers-targets" && u.ips == bootIPs && u.max == o.max
    ensures ok && !client.dryRun ==>
              Brought(old(client.slices), middle, o.allPorts, t) && Brought(middle, client.slices, o.bootPorts, u)
    ensures client.dryRun ==> client.slices == old(client.slices) && client.services == old(client.services)
  {
    t, u, middle := Target("", [], 0, []), Target("", [], 0, []), client.slices;
    var allPorts := ParseNamedPorts(o.allPorts);
    if allPorts.None? { return true, false, t, u, middle; }
    var bootPorts := ParseNamedPorts(o.bootPorts);
    if bootPorts.None? { return true, false, t, u, middle; }
    if !ValidMax(o.max) { return true, false, t, u, middle; }
    var all := Target(ALL_SERVERS, allIPs, o.max, allPorts.value);
    var boot := Target(BOOT_SERVERS, bootIPs, o.max, bootPorts.value);
    t, u := all, boot;
    if |allPorts.value| > 0 {
      ok := client.UpdateTargetEndpoints(all);
      if !ok { return false, false, t, u, middle; }
    }
    middle := client.slices;
    if |bootPorts.value| > 0 {
      ok := client.UpdateTargetEndpoints(boot);
      if !ok { return false, false, t, u, middle; }
    }
    refused, ok := false, true;
  }

  /** The chunks of a target stand in the cluster, and no other slice is managed for it. */
  ghost predicate Shows(slices: map<string, Slice>, t: Target)
    requires t.max > 0
  {
    && (forall i | 0 <= i < |Chunks(t.ips, t.max)| ::
          ExactSlice(slices, t, i) && Part(slices, t.name, i) == Chunks(t.ips, t.max)[i])
    && (forall n | n in slices && Managed(slices[n], t.name) :: ChunkName(t, n))
  }

  lemma {:induction false} ConvergedShows(before: map<string, Slice>, after: map<string, Slice>, t: Target)
    requires t.max > 0 && Converged(before, after, t)
    ensures Shows(after, t)
  {
    ChunksPartition(t.ips, t.max);
    var chunks := Chunks(t.ips, t.max);
    forall i | 0 <= i < |chunks| ensures ExactSlice(after, t, i) && Part(after, t.name, i) == chunks[i] {
      var n := SliceName(t.name, i);
      assert ChunkName(t, n);
      ChunkIsManaged(before, after, t, n);
      assert Get(after, n) == Some(Applied(Get(before, n), t.name, chunks[i], t.ports));
    }
    forall n | n in after && Managed(after[n], t.name) ensures ChunkName(t, n) {
      ManagedIsChunk(before, after, t, n);
    }
  }

  /** After a whole run with ports for both, both targets are shown: the second run has not touched the first one's. */
  lemma {:induction false} BothShown(before: map<string, Slice>, middle: map<string, Slice>, after: map<string, Slice>,
                                     allPorts: seq<string>, bootPorts: seq<string>, t: Target, u: Target)
    requires t.name == ALL_SERVERS && u.name == BOOT_SERVERS && allPorts != [] && bootPorts != []
    requires Brought(before, middle, allPorts, t) && Brought(middle, after, bootPorts, u)
    ensures Shows(after, t) && Shows(after, u)
  {
    assert |ALL_SERVERS| != |BOOT_SERVERS|;
    ConvergedShows(before, middle, t);
    ConvergedShows(middle, after, u);
    forall i | 0 <= i < |Chunks(t.ips, t.max)|
      ensures ExactSlice(after, t, i) && Part(after, t.name, i) == Chunks(t.ips, t.max)[i]
    {
      assert ChunkName(t, SliceName(t.name, i));
      OtherTargetKept(before, middle, after, t, u, SliceName(t.name, i));
      assert ExactSlice(middle, t, i);
    }
    forall n | n in after && Managed(after[n], t.name) ensures ChunkName(t, n) {
      OtherTargetKept(before, middle, after, t, u, n);
    }
  }
}
