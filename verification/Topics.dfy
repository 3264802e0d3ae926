/**
  pkg/clients/topic and its controller. Late initialization merges the spec's configs with the observed ones,
  and an update can only raise the partition count.
 */
module Topics {

  import opened Pointers
  import opened Int64

  /** The name of a config property: one of the six that the client knows, or any other text. */
  datatype Name =
    | CleanupPolicy | RetentionBytes | RetentionMs | SegmentBytes | SegmentIndexBytes | SegmentMs
    | Other(text: string)
  {
    function Text(): string {
      match this
      case CleanupPolicy => "cleanup.policy"
      case RetentionBytes => "retention.bytes"
      case RetentionMs => "retention.ms"
      case SegmentBytes => "segment.bytes"
      case SegmentIndexBytes => "segment.index.bytes"
      case SegmentMs => "segment.ms"
      case Other(text) => text
    }
  }

  datatype Config = Config(name: Name, value: string)

  datatype TopicConfigs = TopicConfigs(
    cleanupPolicy: Option<string>, retentionBytes: Option<string>, retentionMs: Option<string>,
    segmentBytes: Option<string>, segmentIndexBytes: Option<string>, segmentMs: Option<string>)

  /** A topic as the remote describes it. */
  datatype TopicDetail = TopicDetail(
    name: string, partitions: Option<int64>, replicationFactor: Option<int64>, retentionMs: Option<int64>,
    configs: Option<TopicConfigs>)

  /** The spec; a nil list of configs is the empty list. */
  datatype Params = Params(
    name: string, partitions: Option<int64>, partitionCount: Option<int64>, configs: seq<Config>)

  datatype ConfigUpdate = ConfigUpdate(name: Option<Name>, value: Option<string>, resetToDefault: bool)

  datatype UpdateOptions = UpdateOptions(
    topicName: Option<string>, newTotalPartitionCount: Option<int64>, configs: seq<ConfigUpdate>)

  /** The known names, in the order in which every list of configs is written. */
  const KEYS := [CleanupPolicy, RetentionBytes, RetentionMs, SegmentBytes, SegmentIndexBytes, SegmentMs]

  const KNOWN := {CleanupPolicy, RetentionBytes, RetentionMs, SegmentBytes, SegmentIndexBytes, SegmentMs}

  function Field(c: TopicConfigs, k: Name): Option<string> {
    match k
    case CleanupPolicy => c.cleanupPolicy
    case RetentionBytes => c.retentionBytes
    case RetentionMs => c.retentionMs
    case SegmentBytes => c.segmentBytes
    case SegmentIndexBytes => c.segmentIndexBytes
    case SegmentMs => c.segmentMs
    case Other(_) => None
  }

  function SetField(c: TopicConfigs, k: Name, v: string): TopicConfigs {
    match k
    case CleanupPolicy => c.(cleanupPolicy := Some(v))
    case RetentionBytes => c.(retentionBytes := Some(v))
    case RetentionMs => c.(retentionMs := Some(v))
    case SegmentBytes => c.(segmentBytes := Some(v))
    case SegmentIndexBytes => c.(segmentIndexBytes := Some(v))
    case SegmentMs => c.(segmentMs := Some(v))
    case Other(_) => c
  }

  // ---------------------------------------------------------------- configs as maps

  /** What the remote reports, as a map over the known names. */
  function Reported(c: TopicConfigs): map<Name, string> {
    map k | k in KNOWN && Field(c, k).Some? :: Field(c, k).value
  }

  /** A list of configs as a map: of several entries with one name the last one counts. */
  function LastValues(cs: seq<Config>): map<Name, string> {
    if cs == [] then map[]
    else LastValues(cs[..|cs| - 1])[cs[|cs| - 1].name := cs[|cs| - 1].value]
  }

  /** The entries of known name with something in them. */
  function Filled(m: map<Name, string>): map<Name, string> {
    map k | k in m && k in KNOWN && m[k] != "" :: m[k]
  }

  function Entry(m: map<Name, string>, k: Name): seq<Config> {
    if k in m then [Config(k, m[k])] else []
  }

  /** The entries of a map under `keys`, in that order. */
  function RenderKeys(keys: seq<Name>, m: map<Name, string>): seq<Config> {
    if keys == [] then []
    else RenderKeys(keys[..|keys| - 1], m) + Entry(m, keys[|keys| - 1])
  }

  /** The known entries of a map as a list, in the fixed order. */
  function Render(m: map<Name, string>): seq<Config> {
    RenderKeys(KEYS, m)
  }

  /**
    What late initialization reads from the remote: as `Reported`, except that the presence of retention.ms is
    decided by the presence of retention.bytes.
   */
  function ReportedAsRead(c: TopicConfigs): map<Name, string> {
    var m := Reported(c);
    if c.retentionBytes.Some? then m[RetentionMs := FromPtrValue(c.retentionMs)] else m - {RetentionMs}
  }

  /** The plain specification of the merge: the spec's entries override the reported ones. */
  function Override(spec: seq<Config>, c: TopicConfigs): seq<Config> {
    Render(Reported(c) + Filled(LastValues(spec)))
  }

  function Merge(spec: seq<Config>, c: Option<TopicConfigs>): seq<Config> {
    if c.None? then [] else Render(ReportedAsRead(c.value) + Filled(LastValues(spec)))
  }

  function ActualConfigs(c: Option<TopicConfigs>): seq<Config> {
    if c.None? then [] else Render(Reported(c.value))
  }

  /** The place of a name in every written list. */
  function Rank(k: Name): nat {
    match k
    case CleanupPolicy => 0
    case RetentionBytes => 1
    case RetentionMs => 2
    case SegmentBytes => 3
    case SegmentIndexBytes => 4
    case SegmentMs => 5
    case Other(_) => 6
  }

  /** The names stand in the fixed order, so none stands there twice. */
  predicate InOrder(cs: seq<Config>) {
    forall i, j :: 0 <= i < j < |cs| ==> Rank(cs[i].name) < Rank(cs[j].name)
  }

  predicate DistinctNames(cs: seq<Config>) {
    forall i, j :: 0 <= i < j < |cs| ==> cs[i].name != cs[j].name
  }

  function Under(keys: seq<Name>, m: map<Name, string>): map<Name, string> {
    map k | k in m && k in keys :: m[k]
  }

  lemma UnderStep(keys: seq<Name>, k: Name, m: map<Name, string>)
    ensures Under(keys + [k], m) == if k in m then Under(keys, m)[k := m[k]] else Under(keys, m)
  {
  }

  /** Of several entries with one name the last one counts, whatever stands before it. */
  lemma {:induction false} LastEntryDecides(cs: seq<Config>, i: nat)
    requires i < |cs| && forall j :: i < j < |cs| ==> cs[j].name != cs[i].name
    ensures cs[i].name in LastValues(cs) && LastValues(cs)[cs[i].name] == cs[i].value
  {
    if i < |cs| - 1 {
      LastEntryDecides(cs[..|cs| - 1], i);
    }
  }

  /** Every name of the map is that of an entry. */
  lemma {:induction false} NamedByAnEntry(cs: seq<Config>, k: Name)
    ensures k in LastValues(cs) <==> exists i :: 0 <= i < |cs| && cs[i].name == k
  {
    if cs != [] {
      var n := |cs| - 1;
      NamedByAnEntry(cs[..n], k);
      if exists i :: 0 <= i < n && cs[..n][i].name == k {
        var i :| 0 <= i < n && cs[..n][i].name == k;
        assert cs[i].name == k;
      }
      if i :| 0 <= i < |cs| && cs[i].name == k {
        assert i < n ==> cs[..n][i].name == k;
      }
    }
  }

  /** What `m` holds under `k` is what `r` points to. */
  predicate HoldsAt(m: map<Name, string>, k: Name, r: Option<string>) {
    if r.Some? then k in m && m[k] == r.value else k !in m
  }

  /** Each reported field is found under its own name, and nothing else is. */
  lemma ReportedExact(c: TopicConfigs)
    ensures var m := Reported(c);
      && HoldsAt(m, CleanupPolicy, c.cleanupPolicy) && HoldsAt(m, RetentionBytes, c.retentionBytes)
      && HoldsAt(m, RetentionMs, c.retentionMs) && HoldsAt(m, SegmentBytes, c.segmentBytes)
      && HoldsAt(m, SegmentIndexBytes, c.segmentIndexBytes) && HoldsAt(m, SegmentMs, c.segmentMs)
      && forall k :: k in m ==> !k.Other?
  {
  }

  lemma {:induction false} RenderKeysValues(keys: seq<Name>, m: map<Name, string>)
    ensures LastValues(RenderKeys(keys, m)) == Under(keys, m)
  {
    if keys != [] {
      var n := |keys| - 1;
      RenderKeysValues(keys[..n], m);
      UnderStep(keys[..n], keys[n], m);
      assert keys == keys[..n] + [keys[n]];
      var front := RenderKeys(keys[..n], m);
      if keys[n] in m {
        assert (front + Entry(m, keys[n]))[..|front|] == front;
      } else {
        assert front + Entry(m, keys[n]) == front;
      }
    }
  }

  lemma {:induction false} RenderKeysNames(keys: seq<Name>, m: map<Name, string>)
    requires forall i, j :: 0 <= i < j < |keys| ==> Rank(keys[i]) < Rank(keys[j])
    ensures InOrder(RenderKeys(keys, m))
    ensures forall i :: 0 <= i < |RenderKeys(keys, m)| ==> RenderKeys(keys, m)[i].name in keys
  {
    if keys != [] {
      RenderKeysNames(keys[..|keys| - 1], m);
    }
  }

  /** Rendering loses nothing: the list holds each name once, in the fixed order, and reads back as the map. */
  lemma RenderRoundTrip(m: map<Name, string>)
    requires m.Keys <= KNOWN
    ensures LastValues(Render(m)) == m
    ensures InOrder(Render(m)) && DistinctNames(Render(m))
    ensures forall i :: 0 <= i < |Render(m)| ==> Render(m)[i].name in KNOWN
  {
    RenderKeysValues(KEYS, m);
    UnderAll(m);
    RenderNames(m);
  }

  lemma UnderAll(m: map<Name, string>)
    requires m.Keys <= KNOWN
    ensures Under(KEYS, m) == m
  {
    AllKeys();
  }

  lemma RenderNames(m: map<Name, string>)
    ensures InOrder(Render(m)) && DistinctNames(Render(m))
    ensures forall i :: 0 <= i < |Render(m)| ==> Render(m)[i].name in KNOWN
  {
    AllKeys();
    RenderKeysNames(KEYS, m);
  }

  lemma AllKeys()
    ensures forall k :: k in KEYS <==> k in KNOWN
    ensures forall i, j :: 0 <= i < j < |KEYS| ==> Rank(KEYS[i]) < Rank(KEYS[j])
  {
    forall k ensures k in KEYS <==> k in KNOWN {
      assert KEYS[0] in KEYS && KEYS[1] in KEYS && KEYS[2] in KEYS;
      assert KEYS[3] in KEYS && KEYS[4] in KEYS && KEYS[5] in KEYS;
    }
  }

  lemma RenderInjective(a: map<Name, string>, b: map<Name, string>)
    requires a.Keys <= KNOWN && b.Keys <= KNOWN
    ensures Render(a) == Render(b) <==> a == b
  {
    RenderRoundTrip(a);
    RenderRoundTrip(b);
  }

  /**
    The merge is the plain override exactly when the spec sets retention.ms itself, or the remote reports
    retention.ms exactly when it reports retention.bytes.
   */
  lemma MergeIsOverride(spec: seq<Config>, c: TopicConfigs)
    ensures Merge(spec, Some(c)) == Override(spec, c)
       <==> RetentionMs in Filled(LastValues(spec)) || (c.retentionBytes.Some? <==> c.retentionMs.Some?)
  {
    var chosen := Filled(LastValues(spec));
    var read, plain := ReportedAsRead(c) + chosen, Reported(c) + chosen;
    RenderInjective(read, plain);
    if RetentionMs in chosen || (c.retentionBytes.Some? <==> c.retentionMs.Some?) {
      assert read == plain;
    } else {
      assert RetentionMs in read <==> RetentionMs !in plain;
    }
  }

  /** The entry of the merge under one name: the spec's last value if it is not empty, else the observed one. */
  predicate MergesTo(spec: seq<Config>, m: map<Name, string>, k: Name, observed: Option<string>) {
    var wanted := LastValues(spec);
    HoldsAt(m, k, if k in wanted && wanted[k] != "" then Some(wanted[k]) else observed)
  }

  /** The merge, name by name. An observed retention.ms counts only together with retention.bytes, and then as a text. */
  lemma MergeExact(spec: seq<Config>, c: TopicConfigs)
    ensures InOrder(Merge(spec, Some(c)))
    ensures var m := LastValues(Merge(spec, Some(c)));
      && MergesTo(spec, m, CleanupPolicy, c.cleanupPolicy)
      && MergesTo(spec, m, RetentionBytes, c.retentionBytes)
      && MergesTo(spec, m, RetentionMs, if c.retentionBytes.Some? then Some(FromPtrValue(c.retentionMs)) else None)
      && MergesTo(spec, m, SegmentBytes, c.segmentBytes)
      && MergesTo(spec, m, SegmentIndexBytes, c.segmentIndexBytes)
      && MergesTo(spec, m, SegmentMs, c.segmentMs)
      && forall k :: k in m ==> !k.Other?
  {
    MergeValues(spec, c);
    MergedAt(spec, c, CleanupPolicy, c.cleanupPolicy);
    MergedAt(spec, c, RetentionBytes, c.retentionBytes);
    MergedAt(spec, c, RetentionMs, if c.retentionBytes.Some? then Some(FromPtrValue(c.retentionMs)) else None);
    MergedAt(spec, c, SegmentBytes, c.segmentBytes);
    MergedAt(spec, c, SegmentIndexBytes, c.segmentIndexBytes);
    MergedAt(spec, c, SegmentMs, c.segmentMs);
  }

  lemma MergeValues(spec: seq<Config>, c: TopicConfigs)
    ensures InOrder(Merge(spec, Some(c)))
    ensures var m := LastValues(Merge(spec, Some(c)));
      m == ReportedAsRead(c) + Filled(LastValues(spec)) && forall k :: k in m ==> !k.Other?
  {
    RenderRoundTrip(ReportedAsRead(c) + Filled(LastValues(spec)));
  }

  lemma MergedAt(spec: seq<Config>, c: TopicConfigs, k: Name, observed: Option<string>)
    requires k in KNOWN
    requires k != RetentionMs ==> observed == Field(c, k)
    requires k == RetentionMs ==> observed == if c.retentionBytes.Some? then Some(FromPtrValue(c.retentionMs)) else None
    ensures MergesTo(spec, LastValues(Merge(spec, Some(c))), k, observed)
  {
    MergeValues(spec, c);
    assert HoldsAt(ReportedAsRead(c), k, observed);
  }

  /** A list in order is determined by the map it reads back as. */
  lemma {:induction false} InOrderUnique(a: seq<Config>, b: seq<Config>)
    requires InOrder(a) && InOrder(b) && LastValues(a) == LastValues(b)
    requires forall k :: k in LastValues(a) ==> k in KNOWN
    ensures a == b
  {
    if a != [] && b != [] {
      SameLast(a, b);
      FrontValues(a);
      FrontValues(b);
      InOrderUnique(a[..|a| - 1], b[..|b| - 1]);
      assert a == a[..|a| - 1] + [a[|a| - 1]] && b == b[..|b| - 1] + [b[|b| - 1]];
    } else if a != [] {
      LastEntryDecides(a, |a| - 1);
    } else if b != [] {
      LastEntryDecides(b, |b| - 1);
    }
  }

  lemma SameLast(a: seq<Config>, b: seq<Config>)
    requires a != [] && b != []
    requires InOrder(a) && InOrder(b) && LastValues(a) == LastValues(b)
    requires forall k :: k in LastValues(a) ==> k in KNOWN
    ensures a[|a| - 1] == b[|b| - 1]
  {
    var x, y := a[|a| - 1], b[|b| - 1];
    LastEntryDecides(a, |a| - 1);
    LastEntryDecides(b, |b| - 1);
    NamedByAnEntry(a, y.name);
    NamedByAnEntry(b, x.name);
    assert Rank(x.name) == Rank(y.name);
  }

  lemma FrontValues(cs: seq<Config>)
    requires cs != [] && InOrder(cs)
    ensures LastValues(cs[..|cs| - 1]) == LastValues(cs) - {cs[|cs| - 1].name}
  {
    LastValuesNames(cs[..|cs| - 1], cs[|cs| - 1].name);
  }

  /** On an empty spec the merge is the plain conversion exactly when the two retention settings come together. */
  lemma MergeOfNothing(c: Option<TopicConfigs>)
    ensures Merge([], c) == ActualConfigs(c)
       <==> (c.Some? ==> (c.value.retentionBytes.Some? <==> c.value.retentionMs.Some?))
  {
    if c.Some? {
      MergeIsOverride([], c.value);
      assert Filled(LastValues([])) == map[];
      assert Reported(c.value) + map[] == Reported(c.value);
    }
  }

  // ---------------------------------------------------------------- late initialization

  function LateInit(p: Params, d: TopicDetail): Params {
    Params(p.name,
           if p.partitionCount.Some? then p.partitionCount
           else if p.partitions.Some? then p.partitions else d.partitions,
           if p.partitionCount.Some? then p.partitionCount else d.partitions,
           Merge(p.configs, d.configs))
  }

  lemma MergeIdempotent(spec: seq<Config>, c: Option<TopicConfigs>)
    ensures Merge(Merge(spec, c), c) == Merge(spec, c)
  {
    if c.Some? {
      var r, chosen := ReportedAsRead(c.value), Filled(LastValues(spec));
      RenderRoundTrip(r + chosen);
      RefillSame(r, chosen);
    }
  }

  /** Overriding again with the nonempty entries of the result changes nothing. */
  lemma RefillSame(r: map<Name, string>, chosen: map<Name, string>)
    requires chosen.Keys <= KNOWN && forall k :: k in chosen ==> chosen[k] != ""
    ensures r + Filled(r + chosen) == r + chosen
  {
  }

  /** The two counts after late initialization: the wanted count wins, and the reported one fills what is left. */
  lemma CountsExact(p: Params, d: TopicDetail)
    ensures var q := LateInit(p, d);
      && q.name == p.name
      && (p.partitionCount.Some? ==> q.partitionCount == q.partitions == p.partitionCount)
      && (p.partitionCount.None? ==> q.partitionCount == d.partitions)
      && (p.partitionCount.None? && p.partitions.Some? ==> q.partitions == p.partitions)
      && (p.partitionCount.None? && p.partitions.None? ==> q.partitions == d.partitions)
  {
  }

  /**
    Against a fixed observation the second application reaches the fixpoint, and the first one does exactly
    when the spec has a PartitionCount, or the remote reports no count, or Partitions is nil or the reported count.
   */
  lemma LateInitFixpoint(p: Params, d: TopicDetail)
    ensures var once := LateInit(p, d); var twice := LateInit(once, d);
      && LateInit(twice, d) == twice
      && (twice == once <==>
            p.partitionCount.Some? || d.partitions.None? || p.partitions.None? || p.partitions == d.partitions)
      && (d.partitions.Some? ==> twice.partitions == twice.partitionCount)
  {
    var once := LateInit(p, d);
    MergeIdempotent(p.configs, d.configs);
    MergeIdempotent(once.configs, d.configs);
  }

  // ---------------------------------------------------------------- test, request and remote

  predicate UpToDate(p: Params, d: TopicDetail) {
    p == Params(d.name, d.partitions, d.partitions, ActualConfigs(d.configs))
  }

  /**
    The test, field by field. Of the configs it asks for exactly the reported names and values, in the fixed order,
    and for none at all where the remote reports no configs.
   */
  lemma TestExact(p: Params, d: TopicDetail)
    ensures UpToDate(p, d) <==>
      && p.name == d.name && p.partitions == d.partitions && p.partitionCount == d.partitions
      && if d.configs.None? then p.configs == []
         else InOrder(p.configs) && LastValues(p.configs) == Reported(d.configs.value)
  {
    if d.configs.Some? {
      var m := Reported(d.configs.value);
      RenderRoundTrip(m);
      if InOrder(p.configs) && LastValues(p.configs) == m {
        InOrderUnique(p.configs, Render(m));
      }
    }
  }

  /** A wanted value that the remote does not report is noticed by the test, before late initialization and after it. */
  lemma WantedValueIsNoticed(p: Params, d: TopicDetail, c: TopicConfigs, k: Name)
    requires d.configs == Some(c) && k in KNOWN
    requires k in LastValues(p.configs) && LastValues(p.configs)[k] != ""
    requires !HoldsAt(Reported(c), k, Some(LastValues(p.configs)[k]))
    ensures !UpToDate(p, d) && !UpToDate(LateInit(p, d), d)
  {
    TestExact(p, d);
    TestExact(LateInit(p, d), d);
    RenderRoundTrip(ReportedAsRead(c) + Filled(LastValues(p.configs)));
  }

  function ToUpdate(c: Config): ConfigUpdate {
    ConfigUpdate(if c.name.Text() == "" then None else Some(c.name), ToPtrValue(c.value), false)
  }

  function ToUpdates(cs: seq<Config>): seq<ConfigUpdate> {
    seq(|cs|, i requires 0 <= i < |cs| => ToUpdate(cs[i]))
  }

  /** Both counts are dereferenced before they are compared. */
  predicate RequestSafe(p: Params, current: Option<int64>) {
    p.partitionCount.Some? && current.Some?
  }

  function RequestFor(p: Params, current: Option<int64>): UpdateOptions
    requires RequestSafe(p, current)
  {
    UpdateOptions(ToPtrValue(p.name),
                  if p.partitionCount.value > current.value then p.partitionCount else None,
                  ToUpdates(p.configs))
  }

  function ApplyConfigs(c: TopicConfigs, us: seq<ConfigUpdate>): TopicConfigs {
    if us == [] then c
    else
      var u := us[|us| - 1];
      var before := ApplyConfigs(c, us[..|us| - 1]);
      if u.name.Some? && u.value.Some? && !u.resetToDefault then SetField(before, u.name.value, u.value.value) else before
  }

  /** The remote: it refuses a request for another topic, and takes whatever total and configs it is sent. */
  function Apply(d: TopicDetail, o: UpdateOptions): Option<TopicDetail> {
    if o.topicName != Some(d.name) then None
    else Some(d.(
      partitions := if o.newTotalPartitionCount.Some? then o.newTotalPartitionCount else d.partitions,
      configs := if d.configs.None? then None else Some(ApplyConfigs(d.configs.value, o.configs))))
  }

  /** An update is refused exactly for another topic's name; otherwise it raises the count or leaves it, and sets configs. */
  lemma UpdateExact(p: Params, d: TopicDetail)
    requires d.partitions.Some? && p.partitionCount.Some? && d.name != ""
    requires InOrder(p.configs) && forall i :: 0 <= i < |p.configs| ==> p.configs[i].name in KNOWN
    ensures var applied := Apply(d, RequestFor(p, d.partitions));
      && (applied.Some? <==> p.name == d.name)
      && (applied.Some? ==>
            var wanted, count := p.partitionCount.value, d.partitions.value;
            && applied.value.partitions == Some(if wanted > count then wanted else count)
            && applied.value == d.(partitions := applied.value.partitions, configs := applied.value.configs)
            && (applied.value.configs.Some? <==> d.configs.Some?)
            && (d.configs.Some? ==>
                  forall k :: k in KNOWN ==> MergesTo(p.configs, Reported(applied.value.configs.value), k, Field(d.configs.value, k))))
  {
    if d.configs.Some? {
      ApplyReported(d.configs.value, p.configs);
    }
  }

  lemma SetFieldReported(c: TopicConfigs, k: Name, v: string)
    requires k in KNOWN
    ensures Reported(SetField(c, k, v)) == Reported(c)[k := v]
  {
  }

  /** After a list of updates the remote reports the nonempty ones over what it reported before. */
  lemma {:induction false} ApplyReported(c: TopicConfigs, cs: seq<Config>)
    requires DistinctNames(cs) && forall i :: 0 <= i < |cs| ==> cs[i].name in KNOWN
    ensures Reported(ApplyConfigs(c, ToUpdates(cs))) == Reported(c) + Filled(LastValues(cs))
  {
    if cs != [] {
      var n := |cs| - 1;
      var front, last := cs[..n], cs[n];
      ApplyReported(c, front);
      ApplyStep(c, cs);
      LastValuesNames(front, last.name);
      ReportedStep(Reported(c), ApplyConfigs(c, ToUpdates(front)), LastValues(front), last);
    }
  }

  /** One more update, on what the remote reports. */
  lemma ReportedStep(r: map<Name, string>, before: TopicConfigs, m: map<Name, string>, last: Config)
    requires Reported(before) == r + Filled(m) && last.name !in m && last.name in KNOWN
    ensures Reported(if last.value == "" then before else SetField(before, last.name, last.value))
            == r + Filled(m[last.name := last.value])
  {
    SetFieldReported(before, last.name, last.value);
    FilledStep(m, last.name, last.value);
  }

  lemma ApplyStep(c: TopicConfigs, cs: seq<Config>)
    requires cs != [] && cs[|cs| - 1].name in KNOWN
    ensures var last, before := cs[|cs| - 1], ApplyConfigs(c, ToUpdates(cs[..|cs| - 1]));
            ApplyConfigs(c, ToUpdates(cs)) == if last.value == "" then before else SetField(before, last.name, last.value)
  {
    var n := |cs| - 1;
    assert ToUpdates(cs)[..n] == ToUpdates(cs[..n]);
    assert cs[n].name.Text() != "";
  }

  lemma FilledStep(m: map<Name, string>, k: Name, v: string)
    requires k !in m && k in KNOWN
    ensures Filled(m[k := v]) == if v == "" then Filled(m) else Filled(m)[k := v]
  {
  }

  lemma {:induction false} LastValuesNames(cs: seq<Config>, k: Name)
    requires forall i :: 0 <= i < |cs| ==> cs[i].name != k
    ensures k !in LastValues(cs)
  {
    if cs != [] {
      LastValuesNames(cs[..|cs| - 1], k);
    }
  }

  // ---------------------------------------------------------------- convergence

  /** The retention settings after one round are readable: the spec sets retention.ms, or both are reported or neither. */
  predicate RetentionSettles(spec: seq<Config>, c: TopicConfigs) {
    var chosen := Filled(LastValues(spec));
    || RetentionMs in chosen
    || ((c.retentionBytes.Some? || RetentionBytes in chosen) <==> c.retentionMs.Some?)
  }

  /** Once a rendered map was sent, merging it again gives what the remote reports, but for a misread retention.ms. */
  lemma MergeAfterSending(c: TopicConfigs, m: map<Name, string>)
    requires m.Keys <= KNOWN
    ensures var c' := ApplyConfigs(c, ToUpdates(Render(m)));
      && Reported(c') == Reported(c) + Filled(m)
      && (Merge(Render(m), Some(c')) == ActualConfigs(Some(c')) <==>
            RetentionMs in Filled(m) || (RetentionBytes in Reported(c') <==> RetentionMs in Reported(c')))
  {
    RenderRoundTrip(m);
    ApplyReported(c, Render(m));
    var c' := ApplyConfigs(c, ToUpdates(Render(m)));
    assert Reported(c') + Filled(m) == Reported(c');
    MergeIsOverride(Render(m), c');
  }

  /** Observe, Update, Observe on the configs alone. */
  lemma ConfigsSettle(spec: seq<Config>, c: TopicConfigs)
    ensures var merged := Merge(spec, Some(c));
            var c' := ApplyConfigs(c, ToUpdates(merged));
            Merge(merged, Some(c')) == ActualConfigs(Some(c')) <==> RetentionSettles(spec, c)
  {
    var chosen := Filled(LastValues(spec));
    MergeAfterSending(c, ReportedAsRead(c) + chosen);
    RetentionAfter(c, chosen);
  }

  /** Which of the two retention settings the remote reports after the round. */
  lemma RetentionAfter(c: TopicConfigs, chosen: map<Name, string>)
    requires chosen.Keys <= KNOWN && forall k :: k in chosen ==> chosen[k] != ""
    ensures var after := Reported(c) + Filled(ReportedAsRead(c) + chosen);
      && (RetentionBytes in after <==> c.retentionBytes.Some? || RetentionBytes in chosen)
      && (RetentionMs in after <==> c.retentionMs.Some? || RetentionMs in chosen)
    ensures RetentionMs in Filled(ReportedAsRead(c) + chosen) ==>
              RetentionMs in chosen || (c.retentionBytes.Some? && c.retentionMs.Some?)
    ensures RetentionMs in chosen ==> RetentionMs in Filled(ReportedAsRead(c) + chosen)
  {
    assert RetentionMs in Reported(c) <==> c.retentionMs.Some?;
    assert RetentionBytes in Reported(c) <==> c.retentionBytes.Some?;
  }

  /**
    Observe, Update, Observe from any state in which the remote reports a count: the second Observe is up to date
    exactly when the names agree, the wanted count is at least the reported one, and the retention settings settle.
   */
  lemma OneStepConvergence(p: Params, d: TopicDetail)
    requires d.partitions.Some? && d.name != ""
    ensures var q := LateInit(p, d);
      && RequestSafe(q, d.partitions)
      && var applied := Apply(d, RequestFor(q, d.partitions));
         var d' := if applied.Some? then applied.value else d;
         UpToDate(LateInit(q, d'), d') <==>
           && p.name == d.name
           && (p.partitionCount.Some? ==> p.partitionCount.value >= d.partitions.value)
           && (d.configs.Some? ==> RetentionSettles(p.configs, d.configs.value))
  {
    if d.configs.Some? {
      ConfigsSettle(p.configs, d.configs.value);
    }
  }

  // ---------------------------------------------------------------- runs

  /** How a write ends: applied, dropped, or applied with an error reported. */
  datatype Reply = Applied | Dropped | AppliedWithError

  datatype Action = Observe(answered: bool) | Update(readAnswered: bool, reply: Reply)

  datatype State = State(spec: Params, topic: TopicDetail)

  function Written(d: TopicDetail, o: UpdateOptions, reply: Reply): TopicDetail {
    if reply.Dropped? || Apply(d, o).None? then d else Apply(d, o).value
  }

  function Next(s: State, a: Action): State {
    match a
    case Observe(answered) => if answered then s.(spec := LateInit(s.spec, s.topic)) else s
    case Update(readAnswered, reply) =>
      if readAnswered && RequestSafe(s.spec, s.topic.partitions)
      then s.(topic := Written(s.topic, RequestFor(s.spec, s.topic.partitions), reply))
      else s
  }

  function Run(s: State, actions: seq<Action>): State
    decreases |actions|
  {
    if actions == [] then s else Run(Next(s, actions[0]), actions[1..])
  }

  /** In every run, whatever fails, the remote count never decreases and a wanted count, once set, stays. */
  lemma {:induction false} CountNeverDecreases(s: State, actions: seq<Action>)
    requires s.topic.partitions.Some?
    ensures var t := Run(s, actions);
      && t.topic.partitions.Some?
      && t.topic.partitions.value >= s.topic.partitions.value
      && (s.spec.partitionCount.Some? ==> t.spec.partitionCount == s.spec.partitionCount)
      && t.spec.name == s.spec.name && t.topic.name == s.topic.name
    decreases |actions|
  {
    if actions != [] {
      CountNeverDecreases(Next(s, actions[0]), actions[1..]);
    }
  }

  /** A wanted count below the reported one is never reached: no run changes the count or is ever up to date. */
  lemma {:induction false} SmallerCountIsStuck(s: State, actions: seq<Action>)
    requires s.topic.partitions.Some? && s.spec.partitionCount.Some?
    requires s.spec.partitionCount.value < s.topic.partitions.value
    ensures var t := Run(s, actions);
      t.topic.partitions == s.topic.partitions && !UpToDate(t.spec, t.topic) && !UpToDate(LateInit(t.spec, t.topic), t.topic)
    decreases |actions|
  {
    if actions != [] {
      SmallerCountIsStuck(Next(s, actions[0]), actions[1..]);
    }
  }
}
