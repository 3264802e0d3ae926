/**
  pkg/clients/scalinggroup/scalinggroup.go and pkg/controller/ibmclouddatabasesv5/scalinggroup.go in their own
  form: fields assigned one by one on the managed resource, and writes to the remote deployment.
 */
module ScalingGroupController {

  import opened Pointers
  import opened Int64
  import opened ScalingGroups

  /** `*amount / *count`, guarded by neither a nil check on the amount nor a zero check on the count. */
  method Divide(r: Allocation, n: int64) returns (share: int64, outcome: Outcome)
    ensures outcome.Returned? <==> Divisible(Some(r), n)
    ensures outcome.Returned? ==> share == Share(Some(r), n)
  {
    if r.amount.None? || n == 0 {
      return 0, Panicked;
    }
    return Div(r.amount.value, n), Returned;
  }

  method GenerateObservation(groups: seq<SDKGroup>) returns (o: seq<StatusGroup>, outcome: Outcome)
    ensures outcome.Returned? <==> AllObservable(groups)
    ensures outcome.Returned? ==> o == Observed(groups)
  {
    o, outcome := [], Returned;
    for i := 0 to |groups|
      invariant outcome.Returned?
      invariant AllObservable(groups[..i]) && o == Observed(groups[..i])
    {
      var g := groups[i];
      assert groups[..i + 1][..i] == groups[..i];
      if g.members.None? || g.members.value.amount.None? {
        continue;
      }
      if g.id.None? || g.count.None? || g.memory.None? || g.disk.None? || g.cpu.None? {
        assert !Observable(groups[i]);
        return o, Panicked;
      }
      var memory, m := Divide(g.memory.value, g.N());
      var disk, d := Divide(g.disk.value, g.N());
      var cpu, c := Divide(g.cpu.value, g.N());
      if m.Panicked? || d.Panicked? || c.Panicked? {
        assert !Observable(groups[i]);
        return o, Panicked;
      }
      o := o + [StatusGroup(g.id.value, g.count.value, g.N(),
                            Split(g.cpu.value.amount.value, cpu), Split(g.disk.value.amount.value, disk),
                            Split(g.memory.value.amount.value, memory))];
    }
    assert groups[..|groups|] == groups;
  }

  method GenerateScalingGroupParameters(id: string, groups: seq<SDKGroup>) returns (o: Params, outcome: Outcome)
    ensures outcome.Returned? <==> LateSafe(Params(Some(id), None, None, None, None), groups)
    ensures outcome.Returned? ==> o == Actual(id, groups)
  {
    o, outcome := Params(Some(id), None, None, None, None), Returned;
    if |groups| > 0 && groups[0].members.Some? && groups[0].members.value.amount.Some? {
      var g := groups[0];
      if g.cpu.Some? {
        var share, done := Divide(g.cpu.value, g.N());
        if done.Panicked? { return o, Panicked; }
        o := o.(cpu := Some(share));
      }
      if g.disk.Some? {
        var share, done := Divide(g.disk.value, g.N());
        if done.Panicked? { return o, Panicked; }
        o := o.(disk := Some(share));
      }
      if g.memory.Some? {
        var share, done := Divide(g.memory.value, g.N());
        if done.Panicked? { return o, Panicked; }
        o := o.(memory := Some(share));
      }
      o := o.(members := Some(g.N()));
    }
  }

  /** How a remote call ends. A resize that does not arrive changes nothing. */
  datatype Reply = Answered | NotFound | CallError

  /** The remote deployment. */
  class Deployment {
    var groups: seq<SDKGroup>

    constructor (groups: seq<SDKGroup>)
      ensures this.groups == groups
    {
      this.groups := groups;
    }

    method SetDeploymentScalingGroup(req: Request, reply: Reply) returns (failed: bool)
      modifies this
      ensures failed <==> !(reply.Answered? && Resize(old(groups), req).Some?)
      ensures groups == if failed then old(groups) else Resize(old(groups), req).value
    {
      var resized := Resize(groups, req);
      failed := !reply.Answered? || resized.None?;
      if !failed {
        groups := resized.value;
      }
    }
  }

  datatype Observation = Observation(resourceExists: bool, upToDate: bool)

  datatype End = Ok | Failed | Panic

  class ScalingGroup {
    var id: Option<string>
    var members: Option<int64>
    var cpu: Option<int64>
    var disk: Option<int64>
    var memory: Option<int64>
    var groups: seq<StatusGroup>
    var externalName: string
    var deleting: bool

    constructor (spec: Params)
      ensures Spec() == spec && groups == [] && externalName == "" && !deleting
    {
      id, members, cpu, disk, memory := spec.id, spec.members, spec.cpu, spec.disk, spec.memory;
      groups, externalName, deleting := [], "", false;
    }

    ghost function Spec(): Params
      reads this
    {
      Params(id, members, cpu, disk, memory)
    }

    /** A panic half-way leaves some fields filled, but even then none that was set has changed. */
    method LateInitializeSpec(remote: seq<SDKGroup>) returns (outcome: Outcome)
      modifies this`members, this`cpu, this`disk, this`memory
      ensures outcome.Returned? <==> LateSafe(old(Spec()), remote)
      ensures outcome.Returned? ==> Spec() == LateInit(old(Spec()), remote)
      ensures Extends(old(Spec()), Spec())
    {
      if |remote| == 0 {
        return Returned;
      }
      var group := remote[0];
      if group.members.None? || group.members.value.amount.None? {
        return Returned;
      }
      if cpu.None? && group.cpu.Some? {
        var share, done := Divide(group.cpu.value, group.N());
        if done.Panicked? { return Panicked; }
        cpu := Some(share);
      }
      if disk.None? && group.disk.Some? {
        var share, done := Divide(group.disk.value, group.N());
        if done.Panicked? { return Panicked; }
        disk := Some(share);
      }
      if memory.None? && group.memory.Some? {
        var share, done := Divide(group.memory.value, group.N());
        if done.Panicked? { return Panicked; }
        memory := Some(share);
      }
      if members.None? {
        members := Some(group.N());
      }
      return Returned;
    }

    /** Panics when nothing is recorded; products wrap around. */
    method GenerateSetDeploymentScalingGroupOptions() returns (req: Request, outcome: Outcome)
      ensures outcome.Returned? <==> groups != []
      ensures outcome.Returned? ==> req == RequestFor(Spec(), groups)
    {
      req := Request(None, None, None, None);
      if |groups| == 0 {
        return req, Panicked;
      }
      var currentMembers := groups[0].members;
      if members.Some? {
        req := req.(members := Some(members.value));
      }
      if cpu.Some? {
        req := req.(cpu := Some(Mul(cpu.value, currentMembers)));
      }
      if disk.Some? {
        req := req.(disk := Some(Mul(disk.value, currentMembers)));
      }
      if memory.Some? {
        req := req.(memory := Some(Mul(memory.value, currentMembers)));
      }
      return req, Returned;
    }

    /** There is nothing to observe before Create or once the resource is being deleted. */
    ghost predicate Hidden()
      reads this
    {
      externalName == "" || deleting
    }

    method Observe(remote: Deployment, reply: Reply) returns (o: Observation, end: End)
      modifies this`members, this`cpu, this`disk, this`memory, this`groups
      ensures Hidden() || !reply.Answered? ==>
                && Spec() == old(Spec()) && groups == old(groups) && o == Observation(false, false)
                && end == if !Hidden() && reply.CallError? then Failed else Ok
      ensures !Hidden() && reply.Answered? ==>
                (end == Ok <==> LateSafe(old(Spec()), remote.groups) && AllObservable(remote.groups)) && end != Failed
      ensures !Hidden() && reply.Answered? && end == Ok ==>
                && Spec() == LateInit(old(Spec()), remote.groups)
                && groups == Observed(remote.groups)
                && o == Observation(true, Spec() == Actual(externalName, remote.groups))
    {
      o, end := Observation(false, false), Ok;
      if externalName == "" || deleting {
        return;
      }
      if reply.CallError? {
        return o, Failed;
      }
      if reply.NotFound? {
        return;
      }
      var instance := remote.groups;
      var late := LateInitializeSpec(instance);
      if late.Panicked? {
        return o, Panic;
      }
      var status, observed := GenerateObservation(instance);
      if observed.Panicked? {
        return o, Panic;
      }
      groups := status;
      var actual, test := GenerateScalingGroupParameters(externalName, instance);
      assert HasCount(instance) ==> Observable(instance[0]);
      if test.Panicked? {
        return o, Panic;
      }
      var desired := Params(id, members, cpu, disk, memory);
      return Observation(true, desired == actual), Ok;
    }

    /** Nothing is created remotely: the deployment named by the spec is taken over. */
    method Create() returns (failed: bool)
      modifies this`externalName
      ensures failed <==> id.None?
      ensures externalName == if failed then old(externalName) else id.value
    {
      if id.None? {
        return true;
      }
      externalName := FromPtrValue(id);
      return false;
    }

    method Update(remote: Deployment, reply: Reply) returns (end: End)
      modifies remote
      ensures end == Panic <==> groups == []
      ensures groups != [] ==>
        var resized := Resize(old(remote.groups), RequestFor(Spec(), groups));
        && (end == Ok <==> reply.Answered? && resized.Some?)
        && remote.groups == if end == Ok then resized.value else old(remote.groups)
      ensures groups == [] ==> remote.groups == old(remote.groups)
    {
      var req, outcome := GenerateSetDeploymentScalingGroupOptions();
      if outcome.Panicked? {
        return Panic;
      }
      var failed := remote.SetDeploymentScalingGroup(req, reply);
      end := if failed then Failed else Ok;
    }
  }

  /**
    The whole round on the managed resource itself, from a remote whose first group reports a count. It returns
    normally exactly when nothing that is divided is missing or divided by zero and the remote accepts the resize,
    which is so within range. Then the second observe is up to date exactly when the spec names the observed
    deployment and no product of the request wrapped around.
   */
  method Round(cr: ScalingGroup, remote: Deployment) returns (converged: bool, end: End)
    requires !cr.Hidden() && HasCount(remote.groups)
    modifies cr, remote
    ensures end == Ok <==>
      && LateSafe(old(cr.Spec()), old(remote.groups)) && AllObservable(old(remote.groups))
      && Resize(old(remote.groups), RequestFor(LateInit(old(cr.Spec()), old(remote.groups)), Observed(old(remote.groups)))).Some?
    ensures end == Ok ==> cr.Spec() == LateInit(old(cr.Spec()), old(remote.groups))
    ensures end == Ok ==>
      (converged <==> cr.id == Some(old(cr.externalName)) && ProductsFit(cr.Spec(), old(remote.groups)[0].N()))
    ensures WithinRange(old(cr.Spec()), old(remote.groups)) ==>
      end == Ok && (converged <==> cr.id == Some(old(cr.externalName)))
  {
    converged := false;
    var _, first := cr.Observe(remote, Answered);
    if first != Ok {
      return false, first;
    }
    ghost var groups := remote.groups;
    if WithinRange(old(cr.Spec()), groups) {
      ConvergesWithinRange(old(cr.Spec()), cr.externalName, groups);
    }
    var updated := cr.Update(remote, Answered);
    if updated != Ok {
      return false, updated;
    }
    OneStepConvergence(old(cr.Spec()), cr.externalName, groups, remote.groups);
    var o;
    o, end := cr.Observe(remote, Answered);
    converged := o.upToDate;
  }
}
