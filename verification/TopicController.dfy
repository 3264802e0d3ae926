/**
  pkg/clients/topic/topic.go and pkg/controller/eventstreamsadminv1/topic.go in their own form: lists grown
  branch by branch, spec fields assigned in place, and calls on the remote topic.
 */
module TopicController {

  import opened Pointers
  import opened Int64
  import opened Topics

  method CollectValues(cs: seq<Config>) returns (m: map<Name, string>)
    ensures m == LastValues(cs)
  {
    m := map[];
    for i := 0 to |cs|
      invariant m == LastValues(cs[..i])
    {
      assert cs[..i + 1][..i] == cs[..i];
      m := m[cs[i].name := cs[i].value];
    }
    assert cs[..|cs|] == cs;
  }

  /** The six entries that a list of configs is grown from, one branch after the other. */
  lemma RenderUnrolled(m: map<Name, string>)
    ensures Render(m) == [] + Entry(m, CleanupPolicy) + Entry(m, RetentionBytes) + Entry(m, RetentionMs)
                         + Entry(m, SegmentBytes) + Entry(m, SegmentIndexBytes) + Entry(m, SegmentMs)
  {
    var k0: seq<Name> := [];
    var k1 := k0 + [CleanupPolicy];
    var k2 := k1 + [RetentionBytes];
    var k3 := k2 + [RetentionMs];
    var k4 := k3 + [SegmentBytes];
    var k5 := k4 + [SegmentIndexBytes];
    RenderNext(k0, CleanupPolicy, m);
    RenderNext(k1, RetentionBytes, m);
    RenderNext(k2, RetentionMs, m);
    RenderNext(k3, SegmentBytes, m);
    RenderNext(k4, SegmentIndexBytes, m);
    RenderNext(k5, SegmentMs, m);
    assert k5 + [SegmentMs] == KEYS;
  }

  lemma RenderNext(keys: seq<Name>, k: Name, m: map<Name, string>)
    ensures RenderKeys(keys + [k], m) == RenderKeys(keys, m) + Entry(m, k)
  {
    assert (keys + [k])[..|keys|] == keys;
  }

  ghost function Merged(m: map<Name, string>, c: TopicConfigs): map<Name, string> {
    ReportedAsRead(c) + Filled(m)
  }

  /** One branch pair of the merge: the spec's value if there is one, else the observed value if it is reported. */
  method MergeOne(o: seq<Config>, m: map<Name, string>, reported: bool, observed: Option<string>,
                  k: Name, ghost c: TopicConfigs)
    returns (r: seq<Config>)
    requires k in KNOWN
    requires observed == Field(c, k)
    requires reported <==> if k == RetentionMs then c.retentionBytes.Some? else observed.Some?
    ensures r == o + Entry(Merged(m, c), k)
  {
    assert reported <==> k in ReportedAsRead(c);
    r := o;
    if k in m && m[k] != "" {
      r := r + [Config(k, m[k])];
    } else if reported {
      r := r + [Config(k, FromPtrValue(observed))];
    }
  }

  /** The third branch pair looks at retention.bytes to decide whether retention.ms is reported. */
  method MergeConfigs(spec: seq<Config>, observed: Option<TopicConfigs>) returns (o: seq<Config>)
    ensures o == Merge(spec, observed)
  {
    if observed.None? {
      return [];
    }
    var c := observed.value;
    var m := CollectValues(spec);
    RenderUnrolled(Merged(m, c));
    o := MergeOne([], m, c.cleanupPolicy.Some?, c.cleanupPolicy, CleanupPolicy, c);
    o := MergeOne(o, m, c.retentionBytes.Some?, c.retentionBytes, RetentionBytes, c);
    o := MergeOne(o, m, c.retentionBytes.Some?, c.retentionMs, RetentionMs, c);
    o := MergeOne(o, m, c.segmentBytes.Some?, c.segmentBytes, SegmentBytes, c);
    o := MergeOne(o, m, c.segmentIndexBytes.Some?, c.segmentIndexBytes, SegmentIndexBytes, c);
    o := MergeOne(o, m, c.segmentMs.Some?, c.segmentMs, SegmentMs, c);
  }

  /** One branch of the plain conversion. */
  method AppendReported(o: seq<Config>, observed: Option<string>, k: Name, ghost c: TopicConfigs)
    returns (r: seq<Config>)
    requires k in KNOWN && Field(c, k) == observed
    ensures r == o + Entry(Reported(c), k)
  {
    r := o;
    if observed.Some? {
      r := r + [Config(k, FromPtrValue(observed))];
    }
  }

  method GenerateConfigs(observed: Option<TopicConfigs>) returns (o: seq<Config>)
    ensures o == ActualConfigs(observed)
  {
    o := [];
    if observed.None? {
      return;
    }
    var c := observed.value;
    RenderUnrolled(Reported(c));
    o := AppendReported(o, c.cleanupPolicy, CleanupPolicy, c);
    o := AppendReported(o, c.retentionBytes, RetentionBytes, c);
    o := AppendReported(o, c.retentionMs, RetentionMs, c);
    o := AppendReported(o, c.segmentBytes, SegmentBytes, c);
    o := AppendReported(o, c.segmentIndexBytes, SegmentIndexBytes, c);
    o := AppendReported(o, c.segmentMs, SegmentMs, c);
  }

  method GenerateConfigUpdate(cs: seq<Config>) returns (o: seq<ConfigUpdate>)
    ensures o == ToUpdates(cs)
  {
    o := [];
    for i := 0 to |cs|
      invariant o == ToUpdates(cs[..i])
    {
      o := o + [ToUpdate(cs[i])];
    }
    assert cs[..|cs|] == cs;
  }

  method GenerateUpdateTopicOptions(current: Option<int64>, p: Params) returns (o: UpdateOptions, outcome: Outcome)
    ensures outcome.Returned? <==> p.partitionCount.Some? && current.Some?
    ensures outcome.Returned? ==> o == RequestFor(p, current)
    ensures outcome.Returned? ==>
      && FromPtrValue(o.topicName) == p.name && |o.configs| == |p.configs|
      && (o.newTotalPartitionCount.Some? <==> p.partitionCount.value > current.value)
      && (o.newTotalPartitionCount.Some? ==> o.newTotalPartitionCount == p.partitionCount)
  {
    o := UpdateOptions(ToPtrValue(p.name), None, []);
    if p.partitionCount.None? || current.None? {
      return o, Panicked;
    }
    if p.partitionCount.value > current.value {
      o := o.(newTotalPartitionCount := p.partitionCount);
    }
    var configs := GenerateConfigUpdate(p.configs);
    return o.(configs := configs), Returned;
  }

  method IsUpToDate(p: Params, d: TopicDetail) returns (upToDate: bool)
    ensures upToDate <==> UpToDate(p, d)
  {
    var configs := GenerateConfigs(d.configs);
    var actual := Params(d.name, d.partitions, d.partitions, configs);
    upToDate := p == actual;
  }

  /** The remote topic. */
  class RemoteTopic {
    var detail: TopicDetail

    constructor (detail: TopicDetail)
      ensures this.detail == detail
    {
      this.detail := detail;
    }

    method UpdateTopic(o: UpdateOptions, reply: Reply) returns (failed: bool)
      modifies this
      ensures detail == Written(old(detail), o, reply)
      ensures failed <==> !reply.Applied? || Apply(old(detail), o).None?
    {
      var applied := Apply(detail, o);
      failed := !reply.Applied? || applied.None?;
      if !reply.Dropped? && applied.Some? {
        detail := applied.value;
      }
    }
  }

  datatype Observation = Observation(resourceExists: bool, upToDate: bool)

  datatype End = Ok | Failed | Panic

  datatype Read = Answered | NotFound | ReadError

  class Topic {
    var name: string
    var partitions: Option<int64>
    var partitionCount: Option<int64>
    var configs: seq<Config>
    var externalName: string

    constructor (spec: Params, externalName: string)
      ensures Spec() == spec && this.externalName == externalName
    {
      name, partitions, partitionCount, configs := spec.name, spec.partitions, spec.partitionCount, spec.configs;
      this.externalName := externalName;
    }

    ghost function Spec(): Params
      reads this
    {
      Params(name, partitions, partitionCount, configs)
    }

    ghost function StateWith(remote: RemoteTopic): State
      reads this, remote
    {
      State(Spec(), remote.detail)
    }

    method LateInitializeSpec(d: TopicDetail)
      modifies this`partitions, this`partitionCount, this`configs
      ensures Spec() == LateInit(old(Spec()), d)
    {
      if partitionCount.Some? {
        partitions := partitionCount;
      }
      if partitions.None? {
        partitions := d.partitions;
      }
      if partitionCount.None? {
        partitionCount := d.partitions;
      }
      configs := MergeConfigs(configs, d.configs);
    }

    /** The spec is filled before the status is generated, which dereferences two numbers of the response. */
    method Observe(remote: RemoteTopic, read: Read) returns (o: Observation, end: End)
      modifies this`partitions, this`partitionCount, this`configs
      ensures externalName != "" ==>
                StateWith(remote) == Next(old(StateWith(remote)), Action.Observe(read.Answered?))
      ensures externalName == "" ==> Spec() == old(Spec())
      ensures externalName == "" || !read.Answered? ==>
                o == Observation(false, false) && end == if externalName != "" && read.ReadError? then Failed else Ok
      ensures externalName != "" && read.Answered? ==>
                && end == (if remote.detail.replicationFactor.Some? && remote.detail.retentionMs.Some? then Ok else Panic)
                && (end == Ok ==> o == Observation(true, UpToDate(Spec(), remote.detail)))
    {
      o, end := Observation(false, false), Ok;
      if externalName == "" {
        return;
      }
      if read.ReadError? {
        return o, Failed;
      }
      if read.NotFound? {
        return;
      }
      var instance := remote.detail;
      LateInitializeSpec(instance);
      if instance.replicationFactor.None? || instance.retentionMs.None? {
        return o, Panic;
      }
      var upToDate := IsUpToDate(Params(name, partitions, partitionCount, configs), instance);
      return Observation(true, upToDate), Ok;
    }

    /** Reads the current count first; a topic that is not found ends the update without an error. */
    method Update(remote: RemoteTopic, read: Read, reply: Reply) returns (end: End)
      modifies remote
      ensures StateWith(remote) == Next(old(StateWith(remote)), Action.Update(read.Answered?, reply))
      ensures read.Answered? ==> (end == Panic <==> !RequestSafe(Spec(), old(remote.detail).partitions))
      ensures read.Answered? && end != Panic ==>
                var req := RequestFor(Spec(), old(remote.detail).partitions);
                (end == Ok <==> reply.Applied? && Apply(old(remote.detail), req).Some?)
      ensures !read.Answered? ==> end == if read.ReadError? then Failed else Ok
    {
      if read.ReadError? {
        return Failed;
      }
      if read.NotFound? {
        return Ok;
      }
      var instance := remote.detail;
      var opts, outcome := GenerateUpdateTopicOptions(instance.partitions,
                                                      Params(name, partitions, partitionCount, configs));
      if outcome.Panicked? {
        return Panic;
      }
      var failed := remote.UpdateTopic(opts, reply);
      end := if failed then Failed else Ok;
    }
  }

  /**
    Observe, Update, Observe on the resource itself, with every call answered. It ends normally exactly when the
    remote reports the two numbers that the status dereferences.
   */
  method Round(cr: Topic, remote: RemoteTopic) returns (converged: bool, end: End)
    requires cr.externalName != "" && remote.detail.name != "" && remote.detail.partitions.Some?
    modifies cr, remote
    ensures end == Ok <==> old(remote.detail).replicationFactor.Some? && old(remote.detail).retentionMs.Some?
    ensures end == Ok ==>
      (converged <==>
        && old(cr.name) == old(remote.detail).name
        && (old(cr.partitionCount).Some? ==> old(cr.partitionCount).value >= old(remote.detail).partitions.value)
        && (old(remote.detail).configs.Some? ==> RetentionSettles(old(cr.configs), old(remote.detail).configs.value)))
  {
    ghost var p, d := cr.Spec(), remote.detail;
    converged := false;
    var _, first := cr.Observe(remote, Answered);
    if first != Ok {
      return false, first;
    }
    var _ := cr.Update(remote, Answered, Applied);
    OneStepConvergence(p, d);
    var o;
    o, end := cr.Observe(remote, Answered);
    converged := o.upToDate;
  }
}
