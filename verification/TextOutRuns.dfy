/** Whole runs of the text-out splitter: any sequence of additions and deletions. */
module TextOutRuns {
  import opened ModeMap
  import opened TextOutSplitter

  datatype Operation = Add(dev: Device) | Delete(id: nat)

  /** The devices a run leaves attached. */
  function Remaining(devs: seq<Device>, ops: seq<Operation>): seq<Device>
    decreases |ops|
  {
    if ops == [] then devs else
      match ops[0]
      case Add(dev) => Remaining(devs + [dev], ops[1..])
      case Delete(id) => Remaining(Without(devs, id), ops[1..])
  }

  /** One operation more: the device is added at the end, or the one with the identity leaves the list. */
  lemma {:induction false} RemainingNext(devs: seq<Device>, ops: seq<Operation>, op: Operation)
    ensures Remaining(devs, []) == devs
    ensures Remaining(devs, ops + [op]) ==
            match op case Add(dev) => Remaining(devs, ops) + [dev] case Delete(id) => Without(Remaining(devs, ops), id)
    decreases |ops|
  {
    if ops == [] {
      assert [op][1..] == [];
    } else {
      assert (ops + [op])[1..] == ops[1..] + [op];
      RemainingNext(match ops[0] case Add(dev) => devs + [dev] case Delete(id) => Without(devs, id), ops[1..], op);
    }
  }

  ghost predicate AllFailAtMostMode1(devs: seq<Device>) {
    forall d :: 0 <= d < |devs| ==> devs[d].FailsAtMostMode1()
  }

  ghost predicate AddsFailAtMostMode1(ops: seq<Operation>) {
    forall i :: 0 <= i < |ops| && ops[i].Add? ==> ops[i].dev.FailsAtMostMode1()
  }

  lemma {:induction false} WithoutKeepsAll(devs: seq<Device>, id: nat)
    ensures AllFailAtMostMode1(devs) ==> AllFailAtMostMode1(Without(devs, id))
    ensures (forall d :: 0 <= d < |devs| ==> devs[d].id != id) ==> Without(devs, id) == devs
  {
    if devs == [] {
    } else {
      WithoutKeepsAll(devs[1..], id);
    }
  }

  /** What every operation of a run keeps. */
  ghost predicate Settled(devs: seq<Device>, t: Table) {
    AllFailAtMostMode1(devs) && (devs != [] ==> Canonical(devs, t))
  }

  method Step(s: Splitter, op: Operation)
    requires s.Valid()
    modifies s, s.devices, s.queryData, s.modeMap
    ensures s.Valid()
    ensures s.devices == old(s.devices) || fresh(s.devices)
    ensures s.queryData == old(s.queryData) || fresh(s.queryData)
    ensures s.modeMap == null || s.modeMap == old(s.modeMap) || fresh(s.modeMap)
    ensures s.attached == match op case Add(dev) => old(s.attached) + [dev] case Delete(id) => Without(old(s.attached), id)
    ensures Settled(old(s.attached), old(s.table)) && (op.Add? ==> op.dev.FailsAtMostMode1()) ==>
      Settled(s.attached, s.table)
  {
    match op {
      case Add(dev) => s.AddDevice(dev);
      case Delete(id) =>
        WithoutKeepsAll(s.attached, id);
        var _ := s.DeleteDevice(id);
    }
  }

  /**
   After any run of additions and deletions, when no device fails on a mode other than 1, the splitter is in the state
   that adding the remaining devices to an empty splitter gives.
   */
  method Run(s: Splitter, ops: seq<Operation>)
    requires s.Valid()
    modifies s, s.devices, s.queryData, s.modeMap
    ensures s.Valid()
    ensures s.devices == old(s.devices) || fresh(s.devices)
    ensures s.queryData == old(s.queryData) || fresh(s.queryData)
    ensures s.modeMap == null || s.modeMap == old(s.modeMap) || fresh(s.modeMap)
    ensures s.attached == Remaining(old(s.attached), ops)
    ensures Settled(old(s.attached), old(s.table)) && AddsFailAtMostMode1(ops) ==> Settled(s.attached, s.table)
    decreases |ops|
  {
    if ops != [] {
      Step(s, ops[0]);
      Run(s, ops[1..]);
    }
  }
}
