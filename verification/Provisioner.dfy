/**
 local-pv-provisioner on one node: the detector wipes a device before it creates a PV for it, the
 reconciler wipes and deletes released PVs, and both run against the same cluster.
 */
module Provisioner {
  import opened Text
  import PvName
  import opened FillDeleter

  const NODE_LABEL := "local-pv-provisioner.cybozu.com/node"
  const NODE_ANNOT := "local-pv-provisioner.cybozu.io/node"
  const STORAGE_CLASS := "local-pv-provisioner.cybozu.io/storageClassName"
  const VOLUME_MODE := "local-pv-provisioner.cybozu.io/volumeMode"
  const FS_TYPE := "local-pv-provisioner.cybozu.io/fsType"
  const DEVICE_DIR := "local-pv-provisioner.cybozu.io/deviceDir"
  const NAME_FILTER := "local-pv-provisioner.cybozu.io/deviceNameFilter"

  datatype Phase = Pending | Available | Bound | Released | Failed

  datatype PV = PV(labels: map<string, string>, annots: map<string, string>, path: string, phase: Phase)

  datatype Spec = Spec(
    storageClassName: string,
    volumeMode: string,
    fsType: string,
    deviceDir: string,
    deviceNameFilter: string)

  predicate IsFilesystem(volumeMode: string) { volumeMode == "Filesystem" }

  // ---- one configuration per node ----

  /** A configuration as far as PVs record it; the file system type matters in Filesystem mode only. */
  datatype Setting = Setting(
    storageClassName: string,
    volumeMode: string,
    fsType: Option<string>,
    deviceDir: string,
    deviceNameFilter: string)

  ghost function SettingOf(annots: map<string, string>): Option<Setting> {
    if STORAGE_CLASS !in annots || VOLUME_MODE !in annots || DEVICE_DIR !in annots || NAME_FILTER !in annots then None
    else if IsFilesystem(annots[VOLUME_MODE]) && FS_TYPE !in annots then None
    else Some(Setting(annots[STORAGE_CLASS], annots[VOLUME_MODE],
                      if IsFilesystem(annots[VOLUME_MODE]) then Some(annots[FS_TYPE]) else None,
                      annots[DEVICE_DIR], annots[NAME_FILTER]))
  }

  ghost function SpecSetting(spec: Spec): Setting {
    Setting(spec.storageClassName, spec.volumeMode, if IsFilesystem(spec.volumeMode) then Some(spec.fsType) else None,
            spec.deviceDir, spec.deviceNameFilter)
  }

  /** A PV's annotations record a configuration: everything in it, the file system type in Filesystem mode only. */
  ghost predicate Records(annots: map<string, string>, spec: Spec) {
    && Get(annots, "local-pv-provisioner.cybozu.io/storageClassName") == Some(spec.storageClassName)
    && Get(annots, "local-pv-provisioner.cybozu.io/volumeMode") == Some(spec.volumeMode)
    && (spec.volumeMode == "Filesystem" ==> Get(annots, "local-pv-provisioner.cybozu.io/fsType") == Some(spec.fsType))
    && Get(annots, "local-pv-provisioner.cybozu.io/deviceDir") == Some(spec.deviceDir)
    && Get(annots, "local-pv-provisioner.cybozu.io/deviceNameFilter") == Some(spec.deviceNameFilter)
  }

  lemma {:induction false} RecordsIff(annots: map<string, string>, spec: Spec)
    ensures Records(annots, spec) <==> SettingOf(annots) == Some(SpecSetting(spec))
  {
  }

  function Lookup(m: map<string, string>, k: string): (string, bool) {
    if k in m then (m[k], true) else ("", false)
  }

  method HasAnnotsSetByAnotherConfiguration(spec: Spec, created: seq<PV>) returns (conflicted: bool)
    ensures conflicted <==> exists i | 0 <= i < |created| :: !Records(created[i].annots, spec)
  {
    conflicted := false;
    for n := 0 to |created|
      invariant !conflicted
      invariant forall i | 0 <= i < n :: Records(created[i].annots, spec)
    {
      var annot := created[n].annots;
      var (storageClassName, ok1) := Lookup(annot, STORAGE_CLASS);
      var (volumeMode, ok2) := Lookup(annot, VOLUME_MODE);
      var (fsType, ok3) := Lookup(annot, FS_TYPE);
      var (deviceDir, ok4) := Lookup(annot, DEVICE_DIR);
      var (deviceNameFilter, ok5) := Lookup(annot, NAME_FILTER);
      if !ok1 || !ok2 || (IsFilesystem(volumeMode) && !ok3) || !ok4 || !ok5 ||
         storageClassName != spec.storageClassName ||
         volumeMode != spec.volumeMode ||
         (IsFilesystem(volumeMode) && fsType != spec.fsType) ||
         deviceDir != spec.deviceDir ||
         deviceNameFilter != spec.deviceNameFilter
      {
        conflicted := true;
        break;
      }
    }
  }

  // ---- the atomic steps ----

  /** The live read of the PV: found, not found, or another error. */
  datatype Read = Found | NotFound | Error

  /** The node, the devices its detector may list, and how much FillDeleter writes. */
  datatype Config = Config(node: string, devs: set<string>, blockSize: nat, count: nat)

  /** PVs of the cluster, the bytes of the node's devices, and the configuration of the detector run in progress. */
  datatype Cluster = Cluster(pvs: map<string, PV>, disks: map<string, seq<Byte>>, job: Option<Spec>)

  /** `left` is what a call of Delete leaves on the device; `cached` is what the cache behind CreateOrUpdate says. */
  datatype Step =
    | BeginDo(spec: Spec)
    | Detect(dev: string, read: Read, wiped: bool, left: seq<Byte>, cached: bool, applied: bool)
    | EndDo
    | Reconcile(name: string, wiped: bool, left: seq<Byte>, deleted: bool)
    // the rest of the world
    | SetPhase(name: string, phase: Phase)
    | TenantWrites(name: string, bytes: seq<Byte>)
    | PutForeign(name: string, pv: PV)
    | Vanish(name: string)

  ghost function Length(c: Config): nat {
    c.blockSize * c.count
  }

  ghost predicate Ours(c: Config, pv: PV) {
    Get(pv.labels, "local-pv-provisioner.cybozu.com/node") == Some(c.node)
  }

  ghost predicate OurName(c: Config, name: string) {
    exists d | d in c.devs :: PvName.Name(c.node, d) == name
  }

  ghost predicate DistinctNames(c: Config) {
    forall d, e | d in c.devs && e in c.devs && PvName.Name(c.node, d) == PvName.Name(c.node, e) :: d == e
  }

  ghost predicate Fresh(pv: PV) {
    pv.phase.Pending? || pv.phase.Available?
  }

  /** The settings createPV writes into a new or existing PV. */
  function Stamped(old': Option<PV>, node: string, spec: Spec, dev: string): PV {
    var labels := if old'.Some? then old'.value.labels else map[];
    var annots := if old'.Some? then old'.value.annots else map[];
    var annots1 := annots[STORAGE_CLASS := spec.storageClassName][VOLUME_MODE := spec.volumeMode];
    var annots2 := if IsFilesystem(spec.volumeMode) then annots1[FS_TYPE := spec.fsType] else annots1;
    PV(labels[NODE_LABEL := node][NODE_ANNOT := node],
       annots2[DEVICE_DIR := spec.deviceDir][NAME_FILTER := spec.deviceNameFilter],
       dev,
       if old'.Some? then old'.value.phase else Pending)
  }

  ghost predicate Conflicts(c: Config, s: Cluster, spec: Spec) {
    exists name | name in s.pvs && Ours(c, s.pvs[name]) :: SettingOf(s.pvs[name].annots) != Some(SpecSetting(spec))
  }

  /** A call of Delete on a path may end so; a path without a device cannot be opened. */
  ghost predicate DeleteEnds(c: Config, disks: map<string, seq<Byte>>, path: string, ok: bool, left: seq<Byte>) {
    if path in disks then FillDeleter.Wiped(disks[path], left, Length(c), ok) else !ok
  }

  function Overwritten(disks: map<string, seq<Byte>>, path: string, left: seq<Byte>): map<string, seq<Byte>> {
    if path in disks then disks[path := left] else disks
  }

  ghost predicate Enabled(c: Config, s: Cluster, step: Step) {
    match step
    case BeginDo(_) => s.job.None?
    case Detect(dev, read, wiped, left, _, _) =>
      && s.job.Some? && dev in c.devs
      && (read.Found? ==> PvName.Name(c.node, dev) in s.pvs)
      && (read.NotFound? ==> PvName.Name(c.node, dev) !in s.pvs && DeleteEnds(c, s.disks, dev, wiped, left))
    case EndDo => s.job.Some?
    case Reconcile(name, wiped, left, _) =>
      Reclaimable(c, s, name) ==> DeleteEnds(c, s.disks, s.pvs[name].path, wiped, left)
    case SetPhase(name, _) => name in s.pvs
    case TenantWrites(name, bytes) =>
      && name in s.pvs && s.pvs[name].phase.Bound?
      && (s.pvs[name].path in s.disks ==> |bytes| == |s.disks[s.pvs[name].path]|)
    // nobody else labels a PV with this node
    case PutForeign(name, pv) => !Ours(c, pv) && (name in s.pvs ==> !Ours(c, s.pvs[name]))
    case Vanish(name) => name in s.pvs
  }

  ghost function Apply(c: Config, s: Cluster, step: Step): Cluster
    requires Enabled(c, s, step)
  {
    match step
    case BeginDo(spec) => if Conflicts(c, s, spec) then s else s.(job := Some(spec))
    case Detect(dev, read, wiped, left, cached, applied) => Detected(c, s, dev, read, wiped, left, cached, applied)
    case EndDo => s.(job := None)
    case Reconcile(name, wiped, left, deleted) => Reconciled(c, s, name, left, deleted)
    case SetPhase(name, phase) => s.(pvs := s.pvs[name := s.pvs[name].(phase := phase)])
    // the paths of other nodes' PVs are devices of those nodes
    case TenantWrites(name, bytes) =>
      if Ours(c, s.pvs[name]) then s.(disks := Overwritten(s.disks, s.pvs[name].path, bytes)) else s
    case PutForeign(name, pv) => s.(pvs := s.pvs[name := pv])
    case Vanish(name) => s.(pvs := s.pvs - {name})
  }

  /** One device of a detector run. */
  ghost function Detected(c: Config, s: Cluster, dev: string, read: Read, wiped: bool, left: seq<Byte>,
                          cached: bool, applied: bool): Cluster
    requires s.job.Some?
  {
    var disks := if read.NotFound? then Overwritten(s.disks, dev, left) else s.disks;
    var name := PvName.Name(c.node, dev);
    var old' := if name in s.pvs then Some(s.pvs[name]) else None;
    if (read.NotFound? && !wiped) || !applied || cached != old'.Some? then s.(disks := disks)
    else s.(disks := disks, pvs := s.pvs[name := Stamped(old', c.node, s.job.value, dev)])
  }

  ghost predicate Reclaimable(c: Config, s: Cluster, name: string) {
    name in s.pvs && Ours(c, s.pvs[name]) && s.pvs[name].phase.Released?
  }

  /** The PV is deleted whether or not its device could be wiped. */
  ghost function Reconciled(c: Config, s: Cluster, name: string, left: seq<Byte>, deleted: bool): Cluster {
    if !Reclaimable(c, s, name) then s
    else s.(disks := Overwritten(s.disks, s.pvs[name].path, left), pvs := if deleted then s.pvs - {name} else s.pvs)
  }

  /** The devices a step tries to wipe. */
  ghost function Wipes(c: Config, s: Cluster, step: Step): set<string> {
    match step
    case Detect(dev, NotFound, _, _, _, _) => {dev}
    case Reconcile(name, _, _, _) => if Reclaimable(c, s, name) then {s.pvs[name].path} else {}
    case _ => {}
  }

  // ---- the program ----

  /** The cluster as one process sees it, changed in place by its two controllers. */
  class Controllers {
    const node: string
    const blockSize: nat
    const count: nat
    var pvs: map<string, PV>
    var disks: map<string, seq<Byte>>

    constructor (node: string, blockSize: nat, count: nat, pvs: map<string, PV>, disks: map<string, seq<Byte>>)
      ensures this.node == node && this.blockSize == blockSize && this.count == count
      ensures this.pvs == pvs && this.disks == disks
    {
      this.node, this.blockSize, this.count, this.pvs, this.disks := node, blockSize, count, pvs, disks;
    }

    /** Device sizes and the fill settings are within FillDeleter's arithmetic. */
    ghost predicate Fits(c: Config)
      reads this
    {
      && c.node == node && c.blockSize == blockSize && c.count == count && count <= MAX_UINT64
      && forall d | d in disks :: |disks[d]| + blockSize <= MAX_INT64
    }

    method Wipe(path: string, ghost c: Config) returns (ok: bool, ghost left: seq<Byte>)
      requires Fits(c)
      modifies this`disks
      ensures Fits(c) && DeleteEnds(c, old(disks), path, ok, left) && disks == Overwritten(old(disks), path, left)
    {
      if path !in disks { return false, []; }
      var after;
      var opens: bool, faults: set<nat> := *, *;
      ok, after := FillDeleter.DeleteAt(disks[path], blockSize, count, opens, faults);
      left := after;
      disks := disks[path := after];
    }

    /** The body of the detector's loop; `failed` reports the device as one with an error. */
    method DetectDevice(dev: string, spec: Spec, read: Read, cached: bool, applied: bool, ghost c: Config)
        returns (failed: bool, available: bool, ghost wiped: bool, ghost left: seq<Byte>)
      requires Fits(c)
      modifies this
      ensures Fits(c) && (read.NotFound? ==> DeleteEnds(c, old(disks), dev, wiped, left))
      ensures Cluster(pvs, disks, Some(spec)) ==
              Detected(c, Cluster(old(pvs), old(disks), Some(spec)), dev, read, wiped, left, cached, applied)
      ensures available <==> !(read.NotFound? && !wiped)
      ensures failed <==> !available || !applied || cached != (PvName.Name(node, dev) in old(pvs))
    {
      wiped, left := false, [];
      if read.NotFound? {
        var ok;
        ok, left := Wipe(dev, c);
        wiped := ok;
        if !ok { return true, false, wiped, left; }
      }
      var name := PvName.Name(node, dev);
      if !applied || cached != (name in pvs) { return true, true, wiped, left; }
      if cached {
        pvs := pvs[name := Stamped(Some(pvs[name]), node, spec, dev)];
      } else {
        pvs := pvs[name := Stamped(None, node, spec, dev)];
      }
      return false, true, wiped, left;
    }

    /** The PVs that carry the node's label, in whatever order. */
    method ListLabelled(ghost c: Config) returns (created: seq<PV>)
      requires c.node == node
      ensures forall pv :: pv in created <==> exists name | name in pvs :: Ours(c, pvs[name]) && pvs[name] == pv
    {
      var all := pvs;
      var labelled := set name | name in all && Lookup(all[name].labels, NODE_LABEL) == (node, true);
      var order := Enumerate(labelled);
      assert forall name :: name in order <==> name in Elems(order);
      assert forall name | name in order :: name in labelled;
      assert forall i | 0 <= i < |order| :: order[i] in labelled;
      created := seq(|order|, i requires 0 <= i < |order| && order[i] in all => all[order[i]]);
      forall name | name in pvs && Ours(c, pvs[name]) ensures pvs[name] in created {
        assert name in labelled;
        var i :| 0 <= i < |order| && order[i] == name;
        assert created[i] == pvs[name];
      }
      forall pv | pv in created ensures exists name | name in pvs :: Ours(c, pvs[name]) && pvs[name] == pv {
        var i :| 0 <= i < |created| && created[i] == pv;
        assert order[i] in labelled;
      }
    }

    /** A whole detector run without interference is a run of the steps: one for each device, in order. */
    method Do(spec: Spec, devices: seq<string>, ghost c: Config)
        returns (available: nat, failed: nat, ghost steps: seq<Step>)
      requires Fits(c) && forall d | d in devices :: d in c.devs
      modifies this
      ensures var s := Cluster(old(pvs), old(disks), None);
              && Exec(c, s, steps) == Some(Cluster(pvs, disks, None))
              && if Conflicts(c, s, spec) then steps == [BeginDo(spec)]
                 else steps != [] && Visits(steps[..|steps| - 1], devices) &&
                      available == AvailableIn(steps) && failed == FailedIn(c, s, steps)
    {
      ghost var s := Cluster(pvs, disks, None);
      available, failed, steps := 0, 0, [BeginDo(spec)];
      ExecSnoc(c, s, [], BeginDo(spec));
      assert [] + [BeginDo(spec)] == steps;
      var created := ListLabelled(c);
      var conflicted := HasAnnotsSetByAnotherConfiguration(spec, created);
      ListedConflict(c, s, spec, created);
      if conflicted { return; }
      available, failed, steps := DetectAll(spec, devices, c, s);
      ExecSnoc(c, s, steps, EndDo);
      CountsSnoc(c, s, steps, EndDo);
      steps := steps + [EndDo];
      assert steps[..|steps| - 1] == steps[..|devices| + 1];
    }

    /** The loop over the listed devices. */
    method DetectAll(spec: Spec, devices: seq<string>, ghost c: Config, ghost s: Cluster)
        returns (available: nat, failed: nat, ghost steps: seq<Step>)
      requires Fits(c) && forall d | d in devices :: d in c.devs
      requires Exec(c, s, [BeginDo(spec)]) == Some(Cluster(pvs, disks, Some(spec)))
      modifies this
      ensures Exec(c, s, steps) == Some(Cluster(pvs, disks, Some(spec)))
      ensures Visits(steps, devices) && available == AvailableIn(steps) && failed == FailedIn(c, s, steps)
    {
      available, failed, steps := 0, 0, [BeginDo(spec)];
      for n := 0 to |devices|
        invariant Fits(c) && Exec(c, s, steps) == Some(Cluster(pvs, disks, Some(spec)))
        invariant Visits(steps, devices[..n]) && available == AvailableIn(steps) && failed == FailedIn(c, s, steps)
      {
        var dev := devices[n];
        var readFails: bool, cached: bool, applied: bool := *, *, *;
        var read := if readFails then Error else if PvName.Name(node, dev) in pvs then Found else NotFound;
        ghost var t := Cluster(pvs, disks, Some(spec));
        ghost var wiped, left;
        var fails, avail;
        fails, avail, wiped, left := DetectDevice(dev, spec, read, cached, applied, c);
        ghost var step := Detect(dev, read, wiped, left, cached, applied);
        assert Enabled(c, t, step);
        ExecSnoc(c, s, steps, step);
        VisitsSnoc(steps, devices, n, step);
        CountsSnoc(c, s, steps, step);
        steps := steps + [step];
        failed := if fails then failed + 1 else failed;
        available := if avail then available + 1 else available;
      }
      assert devices[..|devices|] == devices;
    }

    method ReconcilePV(name: string, deleted: bool, ghost c: Config, ghost job: Option<Spec>)
        returns (ok: bool, ghost wiped: bool, ghost left: seq<Byte>)
      requires Fits(c)
      modifies this
      ensures var s := Cluster(old(pvs), old(disks), job);
              && Enabled(c, s, Reconcile(name, wiped, left, deleted))
              && Cluster(pvs, disks, job) == Apply(c, s, Reconcile(name, wiped, left, deleted))
              && (!ok <==> Reclaimable(c, s, name) && !deleted)
    {
      wiped, left := false, [];
      if name !in pvs { return true, wiped, left; }
      var pv := pvs[name];
      var (owner, labelled) := Lookup(pv.labels, NODE_LABEL);
      if !labelled || owner != node { return true, wiped, left; }
      if !pv.phase.Released? { return true, wiped, left; }
      var cleaned;
      cleaned, left := Wipe(pv.path, c);
      wiped := cleaned;
      if !deleted { return false, wiped, left; }
      pvs := pvs - {name};
      return true, wiped, left;
    }
  }

  /** A run has begun and taken one step for each device, in order. */
  ghost predicate Visits(steps: seq<Step>, devices: seq<string>) {
    && |steps| == |devices| + 1 && steps[0].BeginDo?
    && forall k | 1 <= k < |steps| :: steps[k].Detect? && steps[k].dev == devices[k - 1]
  }

  /** A device is available unless it had to be wiped and could not be. */
  ghost predicate Available(step: Step) {
    step.Detect? && (step.read.NotFound? ==> step.wiped)
  }

  /** It has failed if it is not available or its PV could not be written. */
  ghost predicate Fails(c: Config, s: Cluster, step: Step) {
    step.Detect? &&
    (!Available(step) || !step.applied || step.cached != (PvName.Name(c.node, step.dev) in s.pvs))
  }

  ghost function AvailableIn(steps: seq<Step>): nat {
    if steps == [] then 0
    else AvailableIn(steps[..|steps| - 1]) + if Available(steps[|steps| - 1]) then 1 else 0
  }

  ghost function FailedIn(c: Config, s: Cluster, steps: seq<Step>): nat {
    if steps == [] then 0
    else
      var front := steps[..|steps| - 1];
      FailedIn(c, s, front) +
      if Exec(c, s, front).Some? && Fails(c, Exec(c, s, front).value, steps[|steps| - 1]) then 1 else 0
  }

  lemma {:induction false} CountsSnoc(c: Config, s: Cluster, steps: seq<Step>, step: Step)
    requires Exec(c, s, steps).Some?
    ensures AvailableIn(steps + [step]) == AvailableIn(steps) + if Available(step) then 1 else 0
    ensures FailedIn(c, s, steps + [step]) ==
            FailedIn(c, s, steps) + if Fails(c, Exec(c, s, steps).value, step) then 1 else 0
  {
    assert (steps + [step])[..|steps|] == steps;
  }

  lemma {:induction false} VisitsSnoc(steps: seq<Step>, devices: seq<string>, n: nat, step: Step)
    requires n < |devices| && Visits(steps, devices[..n]) && step.Detect? && step.dev == devices[n]
    ensures Visits(steps + [step], devices[..n + 1])
  {
  }

  lemma {:induction false} ListedConflict(c: Config, s: Cluster, spec: Spec, created: seq<PV>)
    requires forall pv :: pv in created <==> exists name | name in s.pvs :: Ours(c, s.pvs[name]) && s.pvs[name] == pv
    ensures Conflicts(c, s, spec) <==>
              exists i | 0 <= i < |created| :: !Records(created[i].annots, spec)
  {
    forall i | 0 <= i < |created|
      ensures Records(created[i].annots, spec) <==> SettingOf(created[i].annots) == Some(SpecSetting(spec))
    {
      RecordsIff(created[i].annots, spec);
    }
    if Conflicts(c, s, spec) {
      var name :| name in s.pvs && Ours(c, s.pvs[name]) && SettingOf(s.pvs[name].annots) != Some(SpecSetting(spec));
      assert s.pvs[name] in created;
      var i :| 0 <= i < |created| && created[i] == s.pvs[name];
    }
    if i :| 0 <= i < |created| && !Records(created[i].annots, spec) {
      assert created[i] in created;
    }
  }

  // ---- invariants ----

  ghost predicate NamesFit(c: Config, s: Cluster) {
    && (forall name | name in s.pvs && Ours(c, s.pvs[name]) ::
          s.pvs[name].path in c.devs && name == PvName.Name(c.node, s.pvs[name].path))
    && (forall name | name in s.pvs && OurName(c, name) :: Ours(c, s.pvs[name]))
  }

  ghost predicate CleanDevice(c: Config, s: Cluster, path: string) {
    path in s.disks && FillDeleter.Clean(s.disks[path], Length(c))
  }

  /** A volume not yet handed to a tenant has a device whose labelled bytes are all zero. */
  ghost predicate FreshIsClean(c: Config, s: Cluster) {
    forall name | name in s.pvs && Ours(c, s.pvs[name]) && Fresh(s.pvs[name]) :: CleanDevice(c, s, s.pvs[name].path)
  }

  ghost predicate Uniform(c: Config, s: Cluster) {
    && (forall name | name in s.pvs && Ours(c, s.pvs[name]) :: SettingOf(s.pvs[name].annots).Some?)
    && (forall a, b | a in s.pvs && b in s.pvs && Ours(c, s.pvs[a]) && Ours(c, s.pvs[b]) ::
          SettingOf(s.pvs[a].annots) == SettingOf(s.pvs[b].annots))
    && (s.job.Some? ==> !Conflicts(c, s, s.job.value))
  }

  /** The node has no PVs yet. */
  ghost predicate NoneYet(c: Config, s: Cluster) {
    s.job.None? && forall name | name in s.pvs :: !Ours(c, s.pvs[name])
  }

  /** And nobody else uses the names it is going to give them. */
  ghost predicate Init(c: Config, s: Cluster) {
    NoneYet(c, s) && forall name | name in s.pvs :: !OurName(c, name)
  }

  ghost predicate KeepsOffNames(c: Config, step: Step) {
    step.PutForeign? ==> !OurName(c, step.name)
  }

  /** The live read fails only while the PV exists; NotFound and Found are always true answers. */
  ghost predicate Truthful(c: Config, s: Cluster, step: Step) {
    step.Detect? && step.read.Error? ==> PvName.Name(c.node, step.dev) in s.pvs
  }

  /** A volume that has been bound does not become available again. */
  ghost predicate BoundOnce(s: Cluster, step: Step) {
    step.SetPhase? && step.name in s.pvs && (step.phase.Pending? || step.phase.Available?) ==> Fresh(s.pvs[step.name])
  }

  lemma StampedSetting(old': Option<PV>, c: Config, spec: Spec, dev: string)
    ensures SettingOf(Stamped(old', c.node, spec, dev).annots) == Some(SpecSetting(spec))
    ensures Ours(c, Stamped(old', c.node, spec, dev))
  {
    KeysDiffer();
  }

  /** createPV labels the PV for the node, records the configuration, points it at the device and leaves the rest. */
  lemma {:induction false} StampedMeans(old': Option<PV>, node: string, spec: Spec, dev: string)
    ensures var pv := Stamped(old', node, spec, dev);
            && Get(pv.labels, "local-pv-provisioner.cybozu.com/node") == Some(node)
            && Get(pv.labels, "local-pv-provisioner.cybozu.io/node") == Some(node)
            && Records(pv.annots, spec) && pv.path == dev
            && pv.phase == (if old'.Some? then old'.value.phase else Pending)
  {
    KeysDiffer();
    StampedSetting(old', Config(node, {}, 0, 0), spec, dev);
    RecordsIff(Stamped(old', node, spec, dev).annots, spec);
  }

  lemma KeysDiffer()
    ensures NODE_LABEL != NODE_ANNOT
    ensures STORAGE_CLASS !in {VOLUME_MODE, FS_TYPE, DEVICE_DIR, NAME_FILTER}
    ensures VOLUME_MODE !in {FS_TYPE, DEVICE_DIR, NAME_FILTER}
    ensures FS_TYPE !in {DEVICE_DIR, NAME_FILTER} && DEVICE_DIR != NAME_FILTER
  {
    assert |NODE_LABEL| != |NODE_ANNOT|;
    assert |STORAGE_CLASS| > |VOLUME_MODE| > |DEVICE_DIR| > |FS_TYPE| && |NAME_FILTER| == |STORAGE_CLASS|;
    assert STORAGE_CLASS[31] != NAME_FILTER[31];
  }

  /** Where a PV after the step comes from: the step stamped it, put it, or left all but its phase as it was. */
  ghost predicate FromDetect(c: Config, s: Cluster, step: Step, name: string, pv: PV) {
    && step.Detect? && s.job.Some? && name == PvName.Name(c.node, step.dev)
    && Ours(c, pv) && pv.path == step.dev && SettingOf(pv.annots) == Some(SpecSetting(s.job.value))
  }

  ghost predicate FromOutside(c: Config, s: Cluster, step: Step, name: string, pv: PV) {
    step.PutForeign? && name == step.name && !Ours(c, pv) && (name in s.pvs ==> !Ours(c, s.pvs[name]))
  }

  ghost predicate FromBefore(s: Cluster, name: string, pv: PV) {
    name in s.pvs && pv == s.pvs[name].(phase := pv.phase)
  }

  lemma {:induction false} Origin(c: Config, s: Cluster, step: Step, name: string)
    requires Enabled(c, s, step) && name in Apply(c, s, step).pvs
    ensures var pv := Apply(c, s, step).pvs[name];
            FromDetect(c, s, step, name, pv) || FromOutside(c, s, step, name, pv) || FromBefore(s, name, pv)
  {
    if step.Detect? { DetectOrigin(c, s, step, name); }
  }

  lemma {:induction false} DetectOrigin(c: Config, s: Cluster, step: Step, name: string)
    requires Enabled(c, s, step) && step.Detect? && name in Apply(c, s, step).pvs
    ensures var pv := Apply(c, s, step).pvs[name]; FromDetect(c, s, step, name, pv) || FromBefore(s, name, pv)
  {
    StampedSetting(if name in s.pvs then Some(s.pvs[name]) else None, c, s.job.value, step.dev);
  }

  lemma {:induction false} NamesFitStep(c: Config, s: Cluster, step: Step)
    requires NamesFit(c, s) && Enabled(c, s, step) && KeepsOffNames(c, step)
    ensures NamesFit(c, Apply(c, s, step))
  {
    var s' := Apply(c, s, step);
    forall name | name in s'.pvs
      ensures Ours(c, s'.pvs[name]) ==>
                s'.pvs[name].path in c.devs && name == PvName.Name(c.node, s'.pvs[name].path)
      ensures OurName(c, name) ==> Ours(c, s'.pvs[name])
    {
      Origin(c, s, step, name);
    }
  }

  /** Only the device that a step wipes or writes changes. */
  lemma {:induction false} OtherDisksKept(c: Config, s: Cluster, step: Step, path: string)
    requires Enabled(c, s, step) && CleanDevice(c, s, path)
    requires path !in Wipes(c, s, step)
    requires step.TenantWrites? && Ours(c, s.pvs[step.name]) ==> s.pvs[step.name].path != path
    ensures CleanDevice(c, Apply(c, s, step), path)
  {
  }

  lemma {:induction false} FreshIsCleanStep(c: Config, s: Cluster, step: Step)
    requires DistinctNames(c) && NamesFit(c, s) && FreshIsClean(c, s)
    requires Enabled(c, s, step) && KeepsOffNames(c, step) && Truthful(c, s, step) && BoundOnce(s, step)
    ensures FreshIsClean(c, Apply(c, s, step))
  {
    var s' := Apply(c, s, step);
    forall name | name in s'.pvs && Ours(c, s'.pvs[name]) && Fresh(s'.pvs[name])
      ensures CleanDevice(c, s', s'.pvs[name].path)
    {
      Origin(c, s, step, name);
      if name in s.pvs {
        FreshBefore(c, s, step, name);
        WipedIsReleased(c, s, step, name);
        OtherDisksKept(c, s, step, s.pvs[name].path);
      } else {
        NewIsClean(c, s, step, name);
      }
    }
  }

  /** A PV that is fresh after the step and was there before was fresh then, on the same device. */
  lemma {:induction false} FreshBefore(c: Config, s: Cluster, step: Step, name: string)
    requires DistinctNames(c) && NamesFit(c, s) && Enabled(c, s, step) && KeepsOffNames(c, step) && BoundOnce(s, step)
    requires name in s.pvs && name in Apply(c, s, step).pvs
    requires Ours(c, Apply(c, s, step).pvs[name]) && Fresh(Apply(c, s, step).pvs[name])
    ensures Ours(c, s.pvs[name]) && Fresh(s.pvs[name]) && Apply(c, s, step).pvs[name].path == s.pvs[name].path
    ensures step.TenantWrites? && Ours(c, s.pvs[step.name]) ==> s.pvs[step.name].path != s.pvs[name].path
  {
    Origin(c, s, step, name);
    if step.Detect? && name == PvName.Name(c.node, step.dev) {
      assert OurName(c, name);
    }
  }

  /** A PV that a step brings about sits on a device that the step wiped. */
  lemma {:induction false} NewIsClean(c: Config, s: Cluster, step: Step, name: string)
    requires Enabled(c, s, step) && Truthful(c, s, step) && name !in s.pvs
    requires name in Apply(c, s, step).pvs && Ours(c, Apply(c, s, step).pvs[name])
    ensures var s' := Apply(c, s, step); CleanDevice(c, s', s'.pvs[name].path) && WipesFully(step, s'.pvs[name].path)
  {
    Origin(c, s, step, name);
    assert step.Detect? && name == PvName.Name(c.node, step.dev);
    FillDeleter.WipedIsClean(s.disks[step.dev], step.left, Length(c));
  }

  /** No step wipes the device of a PV of ours that is not released. */
  lemma {:induction false} WipedIsReleased(c: Config, s: Cluster, step: Step, name: string)
    requires NamesFit(c, s) && Enabled(c, s, step) && name in s.pvs && Ours(c, s.pvs[name])
    ensures s.pvs[name].path in Wipes(c, s, step) ==> s.pvs[name].phase.Released?
  {
  }

  /** Uniformity with an explicit common setting. */
  ghost predicate AllSet(c: Config, pvs: map<string, PV>, setting: Setting) {
    forall name | name in pvs && Ours(c, pvs[name]) :: SettingOf(pvs[name].annots) == Some(setting)
  }

  lemma {:induction false} UniformStep(c: Config, s: Cluster, step: Step)
    requires Uniform(c, s) && Enabled(c, s, step)
    ensures Uniform(c, Apply(c, s, step))
  {
    var s' := Apply(c, s, step);
    if step.Detect? {
      var setting := SpecSetting(s.job.value);
      assert AllSet(c, s.pvs, setting);
      forall name | name in s'.pvs && Ours(c, s'.pvs[name]) ensures SettingOf(s'.pvs[name].annots) == Some(setting) {
        Origin(c, s, step, name);
      }
    } else {
      forall name | name in s'.pvs && Ours(c, s'.pvs[name])
        ensures name in s.pvs && Ours(c, s.pvs[name]) && s.pvs[name].annots == s'.pvs[name].annots
      {
        Origin(c, s, step, name);
      }
    }
  }

  // ---- whole runs ----

  /** The state after some steps, if each could be taken. */
  ghost function Exec(c: Config, s: Cluster, steps: seq<Step>): Option<Cluster> {
    if steps == [] then Some(s)
    else
      var before := Exec(c, s, steps[..|steps| - 1]);
      var step := steps[|steps| - 1];
      if before.None? || !Enabled(c, before.value, step) then None else Some(Apply(c, before.value, step))
  }

  /** No step of a run puts a foreign PV under one of the node's names. */
  ghost predicate NamesReserved(c: Config, steps: seq<Step>) {
    forall i | 0 <= i < |steps| :: KeepsOffNames(c, steps[i])
  }

  /** Every step is truthful and makes no bound volume available. */
  ghost predicate Regular(c: Config, s: Cluster, steps: seq<Step>)
    requires Exec(c, s, steps).Some?
  {
    if steps == [] then true
    else
      var front, step := steps[..|steps| - 1], steps[|steps| - 1];
      Regular(c, s, front) && Truthful(c, Exec(c, s, front).value, step) && BoundOnce(Exec(c, s, front).value, step)
  }

  /** Names fit in every run, whatever the live reads answer. */
  lemma {:induction false} RunKeepsNames(c: Config, s: Cluster, steps: seq<Step>)
    requires Init(c, s) && Exec(c, s, steps).Some? && NamesReserved(c, steps)
    ensures NamesFit(c, Exec(c, s, steps).value)
  {
    if steps == [] {
    } else {
      RunKeepsNames(c, s, steps[..|steps| - 1]);
      NamesFitStep(c, Exec(c, s, steps[..|steps| - 1]).value, steps[|steps| - 1]);
    }
  }

  lemma {:induction false} RunKeepsUniform(c: Config, s: Cluster, steps: seq<Step>)
    requires NoneYet(c, s) && Exec(c, s, steps).Some?
    ensures Uniform(c, Exec(c, s, steps).value)
  {
    if steps == [] {
    } else {
      RunKeepsUniform(c, s, steps[..|steps| - 1]);
      UniformStep(c, Exec(c, s, steps[..|steps| - 1]).value, steps[|steps| - 1]);
    }
  }

  /** Our PV `name` exists after the step and did not before. */
  ghost predicate Appears(c: Config, s: Cluster, step: Step, name: string)
    requires Enabled(c, s, step)
  {
    var pvs := Apply(c, s, step).pvs;
    name in pvs && Ours(c, pvs[name]) && !(name in s.pvs && Ours(c, s.pvs[name]))
  }

  /** The step wiped the device completely. */
  ghost predicate WipesFully(step: Step, dev: string) {
    step.Detect? && step.dev == dev && step.read.NotFound? && step.wiped
  }

  /**
   Wipe safety over every run: no step wipes the device of a PV of ours that is not released, and after a
   truthful read a PV of ours appears only in a step that wiped its device, also after the reconciler deleted
   a PV it could not wipe.
   */
  lemma {:induction false} WipeSafety(c: Config, s: Cluster, steps: seq<Step>, step: Step)
    requires Init(c, s) && Exec(c, s, steps + [step]).Some? && NamesReserved(c, steps + [step])
    ensures Exec(c, s, steps).Some? && Enabled(c, Exec(c, s, steps).value, step)
    ensures var t := Exec(c, s, steps).value;
            forall name | name in t.pvs && Ours(c, t.pvs[name]) && t.pvs[name].path in Wipes(c, t, step) ::
              t.pvs[name].phase.Released?
    ensures var t := Exec(c, s, steps).value;
            var t' := Apply(c, t, step);
            forall name | Truthful(c, t, step) && Appears(c, t, step, name) ::
              WipesFully(step, t'.pvs[name].path) && CleanDevice(c, t', t'.pvs[name].path)
  {
    assert (steps + [step])[..|steps|] == steps;
    assert KeepsOffNames(c, (steps + [step])[|steps|]);
    assert forall i | 0 <= i < |steps| :: steps[i] == (steps + [step])[i];
    RunKeepsNames(c, s, steps);
    var t := Exec(c, s, steps).value;
    forall name | name in t.pvs && Ours(c, t.pvs[name]) && t.pvs[name].path in Wipes(c, t, step)
      ensures t.pvs[name].phase.Released?
    {
      WipedIsReleased(c, t, step, name);
    }
    var t' := Apply(c, t, step);
    forall name | Truthful(c, t, step) && Appears(c, t, step, name)
      ensures WipesFully(step, t'.pvs[name].path) && CleanDevice(c, t', t'.pvs[name].path)
    {
      Origin(c, t, step, name);
      assert OurName(c, name);
      NewIsClean(c, t, step, name);
    }
  }

  /** In every regular run the device of a volume that no tenant had yet has zeros in all labelled bytes. */
  lemma {:induction false} FreshVolumesAreClean(c: Config, s: Cluster, steps: seq<Step>)
    requires DistinctNames(c) && Init(c, s) && Exec(c, s, steps).Some?
    requires NamesReserved(c, steps) && Regular(c, s, steps)
    ensures FreshIsClean(c, Exec(c, s, steps).value)
  {
    if steps == [] {
    } else {
      var front, step := steps[..|steps| - 1], steps[|steps| - 1];
      assert KeepsOffNames(c, steps[|steps| - 1]);
      FreshVolumesAreClean(c, s, front);
      RunKeepsNames(c, s, front);
      FreshIsCleanStep(c, Exec(c, s, front).value, step);
    }
  }

  /**
   Without the assumptions: a detector step brings about a PV of the node on an unwiped device exactly when the
   cache and the API server let createPV through and either the PV does not exist and the live read failed for
   another reason, or a PV without the node's label stands under the device's name.
   */
  lemma {:induction false} UnwipedCreateIff(c: Config, s: Cluster, step: Step)
    requires step.Detect? && Enabled(c, s, step)
    ensures var name := PvName.Name(c.node, step.dev);
            (Appears(c, s, step, name) && !WipesFully(step, step.dev)) <==>
              && step.applied && step.cached == (name in s.pvs)
              && if name in s.pvs then !Ours(c, s.pvs[name]) else step.read.Error?
  {
    var name := PvName.Name(c.node, step.dev);
    StampedSetting(if name in s.pvs then Some(s.pvs[name]) else None, c, s.job.value, step.dev);
  }

  /** What one step does for a device, in full. */
  lemma {:induction false} DetectMeans(c: Config, s: Cluster, step: Step)
    requires step.Detect? && Enabled(c, s, step)
    ensures var t, name := Apply(c, s, step), PvName.Name(c.node, step.dev);
            var goes := (step.read.NotFound? ==> step.wiped) && step.applied && step.cached == (name in s.pvs);
            && t.job == s.job
            && (forall d :: Get(t.disks, d) ==
                  if d == step.dev && step.read.NotFound? && d in s.disks then Some(step.left) else Get(s.disks, d))
            && (forall n | n != name :: Get(t.pvs, n) == Get(s.pvs, n))
            && (!goes ==> Get(t.pvs, name) == Get(s.pvs, name))
            && (goes ==> name in t.pvs && Ours(c, t.pvs[name]) && Records(t.pvs[name].annots, s.job.value) &&
                         t.pvs[name].path == step.dev &&
                         t.pvs[name].phase == if name in s.pvs then s.pvs[name].phase else Pending)
  {
    var name := PvName.Name(c.node, step.dev);
    StampedMeans(if name in s.pvs then Some(s.pvs[name]) else None, c.node, s.job.value, step.dev);
  }

  /** A released PV of the node loses its data as far as the wipe goes, and itself if the API server agrees. */
  lemma {:induction false} ReconcileMeans(c: Config, s: Cluster, step: Step)
    requires step.Reconcile? && Enabled(c, s, step)
    ensures var t, name := Apply(c, s, step), step.name;
            if name in s.pvs && Ours(c, s.pvs[name]) && s.pvs[name].phase.Released?
            then && t.job == s.job
                 && (forall n | n != name :: Get(t.pvs, n) == Get(s.pvs, n))
                 && Get(t.pvs, name) == (if step.deleted then None else Get(s.pvs, name))
                 && (forall d :: Get(t.disks, d) ==
                       if d == s.pvs[name].path && d in s.disks then Some(step.left) else Get(s.disks, d))
            else t == s
  {
  }

  /** Two PVs record the same configuration. */
  ghost predicate Agree(a: map<string, string>, b: map<string, string>) {
    exists spec :: Records(a, spec) && Records(b, spec)
  }

  lemma {:induction false} SameSettingAgrees(a: map<string, string>, b: map<string, string>)
    requires SettingOf(a).Some? && SettingOf(a) == SettingOf(b)
    ensures Agree(a, b)
  {
    var x := SettingOf(a).value;
    var spec := Spec(x.storageClassName, x.volumeMode, if x.fsType.Some? then x.fsType.value else "", x.deviceDir,
                     x.deviceNameFilter);
    assert x == SpecSetting(spec);
    RecordsIff(a, spec);
    RecordsIff(b, spec);
  }

  /** All PVs of the node record one configuration, in every reachable state. */
  lemma {:induction false} OneConfiguration(c: Config, s: Cluster, steps: seq<Step>, a: string, b: string)
    requires NoneYet(c, s) && Exec(c, s, steps).Some?
    ensures var pvs := Exec(c, s, steps).value.pvs;
            a in pvs && b in pvs && Ours(c, pvs[a]) && Ours(c, pvs[b]) ==> Agree(pvs[a].annots, pvs[b].annots)
  {
    RunKeepsUniform(c, s, steps);
    var pvs := Exec(c, s, steps).value.pvs;
    if a in pvs && b in pvs && Ours(c, pvs[a]) && Ours(c, pvs[b]) {
      SameSettingAgrees(pvs[a].annots, pvs[b].annots);
    }
  }

  /** In every run a detector run starts if and only if its configuration is the one the existing PVs record. */
  lemma {:induction false} DisagreeingRunChangesNothing(c: Config, s: Cluster, steps: seq<Step>, spec: Spec,
                                                        name: string)
    requires NoneYet(c, s) && Exec(c, s, steps).Some?
    requires var t := Exec(c, s, steps).value; t.job.None? && name in t.pvs && Ours(c, t.pvs[name])
    ensures var t := Exec(c, s, steps).value;
            var t' := Apply(c, t, BeginDo(spec));
            if Records(t.pvs[name].annots, spec) then t' == t.(job := Some(spec)) else t' == t
  {
    RunKeepsUniform(c, s, steps);
    RecordsIff(Exec(c, s, steps).value.pvs[name].annots, spec);
  }

  // ---- the failing run ----

  lemma {:induction false} ExecSnoc(c: Config, s: Cluster, steps: seq<Step>, step: Step)
    requires Exec(c, s, steps).Some? && Enabled(c, Exec(c, s, steps).value, step)
    ensures Exec(c, s, steps + [step]) == Some(Apply(c, Exec(c, s, steps).value, step))
  {
    assert (steps + [step])[..|steps|] == steps;
  }

  ghost function OneDevice(node: string, dev: string): Config {
    Config(node, {dev}, 1, 1)
  }

  ghost function Blank(dev: string): Cluster {
    Cluster(map[], map[dev := [0]], None)
  }

  /** A volume is created, bound, written and released; its wipe fails, and it is deleted all the same. */
  ghost function Lifetime(node: string, dev: string, spec: Spec): seq<Step> {
    var name := PvName.Name(node, dev);
    [BeginDo(spec), Detect(dev, NotFound, true, [0], false, true), SetPhase(name, Bound), TenantWrites(name, [1]),
     SetPhase(name, Released), Reconcile(name, false, [1], true)]
  }

  ghost predicate Reaches(c: Config, s: Cluster, steps: seq<Step>, t: Cluster) {
    Exec(c, s, steps) == Some(t) && Regular(c, s, steps)
  }

  lemma {:induction false} OneMore(c: Config, s: Cluster, steps: seq<Step>, t: Cluster, step: Step)
    requires Reaches(c, s, steps, t) && Enabled(c, t, step) && Truthful(c, t, step) && BoundOnce(t, step)
    ensures Reaches(c, s, steps + [step], Apply(c, t, step))
  {
    ExecSnoc(c, s, steps, step);
    assert (steps + [step])[..|steps|] == steps;
  }

  /** The created volume, and the state with it in some phase. */
  ghost function Volume(node: string, dev: string, spec: Spec, phase: Phase): PV {
    Stamped(None, node, spec, dev).(phase := phase)
  }

  ghost function Holding(node: string, dev: string, spec: Spec, phase: Phase, byte: Byte): Cluster {
    Cluster(map[PvName.Name(node, dev) := Volume(node, dev, spec, phase)], map[dev := [byte]], Some(spec))
  }

  lemma {:induction false} ZeroIsLabelled()
    ensures Labelled(0, 1, 1)
    ensures FillDeleter.Wiped([0], [0], 1, true) && FillDeleter.Wiped([1], [1], 1, false)
    ensures !FillDeleter.Clean([1], 1)
  {
    var bytes: seq<Byte> := [1];
    assert Labelled(0, |bytes|, 1) && bytes[0] != 0;
  }

  lemma {:induction false} LifetimeCreates(node: string, dev: string, spec: Spec)
    ensures var c, s, steps := OneDevice(node, dev), Blank(dev), Lifetime(node, dev, spec);
            Reaches(c, s, steps[..2], Holding(node, dev, spec, Pending, 0))
  {
    var c, s, steps := OneDevice(node, dev), Blank(dev), Lifetime(node, dev, spec);
    ZeroIsLabelled();
    assert Reaches(c, s, [], s);
    OneMore(c, s, [], s, steps[0]);
    assert [] + [steps[0]] == steps[..1];
    var s1 := Apply(c, s, steps[0]);
    assert s1 == s.(job := Some(spec));
    OneMore(c, s, steps[..1], s1, steps[1]);
    assert steps[..1] + [steps[1]] == steps[..2];
    assert Apply(c, s1, steps[1]).disks == map[dev := [0]];
  }

  lemma {:induction false} LifetimeBinds(node: string, dev: string, spec: Spec)
    ensures var c, s, steps := OneDevice(node, dev), Blank(dev), Lifetime(node, dev, spec);
            Reaches(c, s, steps[..4], Holding(node, dev, spec, Bound, 1))
  {
    var c, s, steps := OneDevice(node, dev), Blank(dev), Lifetime(node, dev, spec);
    LifetimeCreates(node, dev, spec);
    StampedSetting(None, c, spec, dev);
    var s2 := Holding(node, dev, spec, Pending, 0);
    OneMore(c, s, steps[..2], s2, steps[2]);
    assert steps[..2] + [steps[2]] == steps[..3];
    var s3 := Holding(node, dev, spec, Bound, 0);
    assert Apply(c, s2, steps[2]) == s3;
    OneMore(c, s, steps[..3], s3, steps[3]);
    assert steps[..3] + [steps[3]] == steps[..4];
    assert Apply(c, s3, steps[3]) == Holding(node, dev, spec, Bound, 1);
  }

  lemma {:induction false} LifetimeRuns(node: string, dev: string, spec: Spec)
    ensures Reaches(OneDevice(node, dev), Blank(dev), Lifetime(node, dev, spec),
                    Cluster(map[], map[dev := [1]], Some(spec)))
  {
    var c, s, steps := OneDevice(node, dev), Blank(dev), Lifetime(node, dev, spec);
    LifetimeBinds(node, dev, spec);
    ZeroIsLabelled();
    StampedSetting(None, c, spec, dev);
    var s4 := Holding(node, dev, spec, Bound, 1);
    OneMore(c, s, steps[..4], s4, steps[4]);
    assert steps[..4] + [steps[4]] == steps[..5];
    var s5 := Holding(node, dev, spec, Released, 1);
    assert Apply(c, s4, steps[4]) == s5;
    OneMore(c, s, steps[..5], s5, steps[5]);
    assert steps[..5] + [steps[5]] == steps;
    var s6 := Apply(c, s5, steps[5]);
    assert s6.pvs == map[] && s6.disks == map[dev := [1]];
  }

  /**
   The failing side is reached: after that lifetime, one live read that fails although the PV is gone lets the
   detector create a new volume on the device with the tenant's byte still where a label is looked for.
   */
  lemma {:induction false} UnwipedVolume(node: string, dev: string, spec: Spec)
    ensures var c, s, name := OneDevice(node, dev), Blank(dev), PvName.Name(node, dev);
            var steps := Lifetime(node, dev, spec) + [Detect(dev, Error, false, [], false, true)];
            && DistinctNames(c) && Init(c, s) && NamesReserved(c, steps)
            && Reaches(c, s, Lifetime(node, dev, spec), Cluster(map[], map[dev := [1]], Some(spec)))
            && Exec(c, s, steps) == Some(Holding(node, dev, spec, Pending, 1))
            && !FreshIsClean(c, Holding(node, dev, spec, Pending, 1))
  {
    var c, s, life := OneDevice(node, dev), Blank(dev), Lifetime(node, dev, spec);
    var step := Detect(dev, Error, false, [], false, true);
    LifetimeRuns(node, dev, spec);
    UnwipedSetup(node, dev, spec);
    ExecSnoc(c, s, life, step);
    UnwipedIsUnclean(node, dev, spec);
  }

  lemma {:induction false} UnwipedSetup(node: string, dev: string, spec: Spec)
    ensures var c, s := OneDevice(node, dev), Blank(dev);
            && DistinctNames(c) && Init(c, s)
            && NamesReserved(c, Lifetime(node, dev, spec) + [Detect(dev, Error, false, [], false, true)])
  {
  }

  lemma {:induction false} UnwipedIsUnclean(node: string, dev: string, spec: Spec)
    ensures !FreshIsClean(OneDevice(node, dev), Holding(node, dev, spec, Pending, 1))
  {
    var c, t := OneDevice(node, dev), Holding(node, dev, spec, Pending, 1);
    StampedSetting(None, c, spec, dev);
    ZeroIsLabelled();
    assert !CleanDevice(c, t, t.pvs[PvName.Name(node, dev)].path);
  }

  /** A PV that someone else has put under the device's name. */
  const FOREIGN := PV(map[], map[], "", Pending)

  /** The other way: such a PV is found, so nothing is wiped, and createPV makes it the node's. */
  lemma {:induction false} AdoptedVolume(node: string, dev: string, spec: Spec)
    ensures var c, s, name := OneDevice(node, dev), Cluster(map[], map[dev := [1]], None), PvName.Name(node, dev);
            var steps := [PutForeign(name, FOREIGN), BeginDo(spec), Detect(dev, Found, false, [], true, true)];
            && Init(c, s) && Exec(c, s, steps).Some?
            && var t := Exec(c, s, steps).value;
               name in t.pvs && Ours(c, t.pvs[name]) && t.pvs[name].path == dev && t.disks == s.disks &&
               !CleanDevice(c, t, dev)
  {
    var c, s, name := OneDevice(node, dev), Cluster(map[], map[dev := [1]], None), PvName.Name(node, dev);
    var put, begin, detect := PutForeign(name, FOREIGN), BeginDo(spec), Detect(dev, Found, false, [], true, true);
    ExecSnoc(c, s, [], put);
    assert [] + [put] == [put];
    var s1 := Cluster(map[name := FOREIGN], s.disks, None);
    ExecSnoc(c, s, [put], begin);
    assert [put] + [begin] == [put, begin] && Apply(c, s1, begin) == s1.(job := Some(spec));
    ExecSnoc(c, s, [put, begin], detect);
    assert [put, begin] + [detect] == [put, begin, detect];
    StampedSetting(Some(FOREIGN), c, spec, dev);
    ZeroIsLabelled();
  }
}
