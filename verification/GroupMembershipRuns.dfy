/**
  The group membership reconciler as a state machine. The remote group is a map from member id to type. Every
  call may fail after reaching any subset of its items; the choice is part of the action, so a statement about
  all actions is a statement about all failures.
 */
module GroupMembershipRuns {

  import opened Pointers
  import opened Lists
  import opened Ordering
  import opened GroupMembershipClient

  type Group = map<string, string>

  /**
    How the remote answers a write. `Refused` is an error from the SDK, benign when the caller's error filter
    drops it; `MemberErrors` is a success status whose body carries per-member errors.
   */
  datatype Reply =
    | Done
    | Refused(reached: set<string>, benign: bool)
    | MemberErrors(reached: set<string>, benign: bool)
  {
    predicate Reaches(id: string) {
      Done? || id in reached
    }
  }

  /** A list or read call: it answers, or it fails, perhaps because the group does not exist. */
  datatype Read = Listed(members: seq<SDKMember>) | NotFound | ReadError

  /** What the remote is taken to demand of an add request: a request that names a member without an id is rejected whole. */
  predicate Sendable(items: seq<SDKMember>) {
    forall i :: 0 <= i < |items| ==> items[i].iamID.Some?
  }

  function AddReached(g: Group, items: seq<SDKMember>, reply: Reply): Group {
    if items == [] then g
    else
      var before := AddReached(g, items[..|items| - 1], reply);
      var m := FromSDK(items[|items| - 1]);
      if reply.Reaches(m.iamID) then before[m.iamID := m.memberType] else before
  }

  function Add(g: Group, items: seq<SDKMember>, reply: Reply): Group {
    if Sendable(items) then AddReached(g, items, reply) else g
  }

  predicate AddSucceeds(items: seq<SDKMember>, reply: Reply) {
    Sendable(items) && reply.Done?
  }

  function Remove(g: Group, ids: seq<string>, reply: Reply): Group {
    map id | id in g && !(id in ids && reply.Reaches(id)) :: g[id]
  }

  /** A complete listing of the group, in any order. */
  ghost predicate IsListing(l: seq<SDKMember>, g: Group) {
    var ms := FromSDKAll(l);
    && DistinctKeys(ms, ByID)
    && (forall m :: m in ms ==> m.iamID in g && g[m.iamID] == m.memberType)
    && Keys(ms, ByID) == g.Keys
  }

  /** `target` is the group id of the spec; `named` says that the external name is not empty. */
  datatype State = State(spec: seq<Member>, target: string, status: seq<Member>, named: bool, group: Group)
  {
    ghost function Desired(): set<string> { Keys(spec, ByID) }
    ghost function Recorded(): set<string> { Keys(status, ByID) }
    ghost function Missing(): set<string> { Desired() - group.Keys }
    ghost function Surplus(): set<string> { group.Keys - Desired() }
    ghost function Gap(): nat { |Missing()| + |Surplus()| }
  }

  datatype Action = Observe(read: Read) | Create(reply: Reply) | Update(add: Reply, remove: Reply) | Delete(reply: Reply)

  ghost function ToAdd(s: State): seq<SDKMember> {
    ToSDKAll(Without(s.spec, ByID, s.Recorded()))
  }

  ghost function ToRemove(s: State): seq<string> {
    IDs(Without(s.status, ByID, s.Desired()))
  }

  /** The first half of an update: nothing is sent when there is nothing to add. */
  ghost predicate AddPhaseSucceeds(s: State, add: Reply) {
    ToAdd(s) == [] || AddSucceeds(ToAdd(s), add)
  }

  ghost function AfterAdd(s: State, add: Reply): Group {
    if ToAdd(s) == [] then s.group else Add(s.group, ToAdd(s), add)
  }

  ghost predicate UpdateSucceeds(s: State, add: Reply, remove: Reply) {
    AddPhaseSucceeds(s, add) && (ToRemove(s) == [] || remove.Done?)
  }

  ghost function AfterUpdate(s: State, add: Reply, remove: Reply): Group {
    if !AddPhaseSucceeds(s, add) || ToRemove(s) == [] then AfterAdd(s, add)
    else Remove(AfterAdd(s, add), ToRemove(s), remove)
  }

  /** Observing records the members, except that an empty listing leaves the old record in place. */
  ghost function AfterObserve(s: State, read: Read): State {
    if s.named && read.Listed? && read.members != [] then s.(status := FromSDKAll(read.members)) else s
  }

  ghost function Next(s: State, a: Action): State {
    match a
    case Observe(read) => AfterObserve(s, read)
    case Create(reply) =>
      s.(group := Add(s.group, ToSDKAll(s.spec), reply),
         named := if AddSucceeds(ToSDKAll(s.spec), reply) then s.target != "" else s.named)
    case Update(add, remove) => s.(group := AfterUpdate(s, add, remove))
    case Delete(reply) => s.(group := Remove(s.group, IDs(s.spec), reply))
  }

  /** No third-party writes: a read that answers lists the group as the controller's own calls left it. */
  ghost predicate Enabled(s: State, a: Action) {
    a.Observe? && a.read.Listed? ==> IsListing(a.read.members, s.group)
  }

  ghost function Run(s: State, actions: seq<Action>): State
    decreases |actions|
  {
    if actions == [] then s else Run(Next(s, actions[0]), actions[1..])
  }

  ghost predicate Admissible(s: State, actions: seq<Action>)
    decreases |actions|
  {
    actions != [] ==>
      && Enabled(s, actions[0])
      && !actions[0].Delete?
      && Admissible(Next(s, actions[0]), actions[1..])
  }

  /** Kept by every step: the remote has no empty id, and every desired id on record is really there. */
  ghost predicate Inv(s: State) {
    && "" !in s.group
    && s.Desired() * s.Recorded() <= s.group.Keys
  }

  /** From the first answered Observe of the named group on: every surplus id is on record. */
  ghost predicate Tracked(s: State) {
    s.Surplus() <= s.Recorded()
  }

  // ---------------------------------------------------------------- what one call does to the set of ids

  lemma {:induction false} AddReachedKeys(g: Group, items: seq<SDKMember>, reply: Reply)
    ensures forall id :: id in AddReached(g, items, reply)
                    <==> id in g || (id in Keys(FromSDKAll(items), ByID) && reply.Reaches(id))
  {
    if items != [] {
      var n := |items| - 1;
      AddReachedKeys(g, items[..n], reply);
      assert FromSDKAll(items)[..n] == FromSDKAll(items[..n]);
      assert FromSDKAll(items)[..n + 1] == FromSDKAll(items);
      KeysStep(FromSDKAll(items), n);
    }
  }

  lemma {:induction false} AddReachedKeepsOthers(g: Group, items: seq<SDKMember>, reply: Reply, id: string)
    requires id in g && !(id in Keys(FromSDKAll(items), ByID) && reply.Reaches(id))
    ensures id in AddReached(g, items, reply) && AddReached(g, items, reply)[id] == g[id]
  {
    if items != [] {
      var n := |items| - 1;
      assert FromSDKAll(items)[..n] == FromSDKAll(items[..n]);
      assert FromSDKAll(items)[..n + 1] == FromSDKAll(items);
      KeysStep(FromSDKAll(items), n);
      AddReachedKeepsOthers(g, items[..n], reply, id);
    }
  }

  /** An id that is reached has the type of its last item. */
  lemma {:induction false} AddReachedTypes(g: Group, items: seq<SDKMember>, reply: Reply, k: nat)
    requires k < |items| && LastOfItsID(FromSDKAll(items), k) && reply.Reaches(FromSDKAll(items)[k].iamID)
    ensures var m := FromSDKAll(items)[k];
      m.iamID in AddReached(g, items, reply) && AddReached(g, items, reply)[m.iamID] == m.memberType
  {
    var n := |items| - 1;
    var ms := FromSDKAll(items);
    assert ms[..n] == FromSDKAll(items[..n]);
    if k < n {
      assert ms[n].iamID != ms[k].iamID;
      assert LastOfItsID(ms[..n], k);
      AddReachedTypes(g, items[..n], reply, k);
    }
  }

  /** No later member of the list has the same id. */
  ghost predicate LastOfItsID(ms: seq<Member>, k: nat)
    requires k < |ms|
  {
    forall j :: k < j < |ms| ==> ms[j].iamID != ms[k].iamID
  }

  lemma SendableSpec(ms: seq<Member>)
    ensures Sendable(ToSDKAll(ms)) <==> "" !in Keys(ms, ByID)
  {
    if "" in Keys(ms, ByID) {
      var m :| m in ms && ByID(m) == "";
      var i :| 0 <= i < |ms| && ms[i] == m;
      assert ToSDKAll(ms)[i].iamID.None?;
    } else {
      forall i | 0 <= i < |ms| ensures ToSDKAll(ms)[i].iamID.Some? {
        KeyOf(ms, ByID, ms[i]);
      }
    }
  }

  lemma AddKeys(g: Group, ms: seq<Member>, reply: Reply)
    ensures Sendable(ToSDKAll(ms)) ==>
              forall id :: id in Add(g, ToSDKAll(ms), reply) <==> id in g || (id in Keys(ms, ByID) && reply.Reaches(id))
    ensures !Sendable(ToSDKAll(ms)) ==> Add(g, ToSDKAll(ms), reply) == g
  {
    SDKRoundTrip(ms);
    AddReachedKeys(g, ToSDKAll(ms), reply);
  }

  /**
    An add request for a list of members: it is refused whole when an id is empty; otherwise it adds the ids it
    reaches, with the type of their last entry, and touches nothing else. It succeeds only in full.
   */
  lemma AddExact(g: Group, ms: seq<Member>, reply: Reply)
    ensures AddSucceeds(ToSDKAll(ms), reply) <==> reply.Done? && "" !in Keys(ms, ByID)
    ensures var t := Add(g, ToSDKAll(ms), reply); var ok := "" !in Keys(ms, ByID);
      && (forall id :: id in t <==> id in g || (ok && id in Keys(ms, ByID) && reply.Reaches(id)))
      && (forall id :: id in g && !(ok && id in Keys(ms, ByID) && reply.Reaches(id)) ==> t[id] == g[id])
      && (forall k :: 0 <= k < |ms| && ok && LastOfItsID(ms, k) && reply.Reaches(ms[k].iamID) ==>
            ms[k].iamID in t && t[ms[k].iamID] == ms[k].memberType)
  {
    SendableSpec(ms);
    AddKeys(g, ms, reply);
    SDKRoundTrip(ms);
    var items := ToSDKAll(ms);
    if Sendable(items) {
      forall id | id in g && !(id in Keys(ms, ByID) && reply.Reaches(id)) ensures Add(g, items, reply)[id] == g[id] {
        AddReachedKeepsOthers(g, items, reply, id);
      }
      forall k | 0 <= k < |ms| && LastOfItsID(ms, k) && reply.Reaches(ms[k].iamID)
        ensures ms[k].iamID in Add(g, items, reply) && Add(g, items, reply)[ms[k].iamID] == ms[k].memberType
      {
        AddReachedTypes(g, items, reply, k);
      }
    }
  }

  lemma IDsKeys(ms: seq<Member>)
    ensures forall id :: id in IDs(ms) <==> id in Keys(ms, ByID)
  {
    forall id ensures id in IDs(ms) <==> id in Keys(ms, ByID) {
      if id in IDs(ms) {
        var i :| 0 <= i < |IDs(ms)| && IDs(ms)[i] == id;
        KeyOf(ms, ByID, ms[i]);
      }
      if id in Keys(ms, ByID) {
        var m :| m in ms && ByID(m) == id;
        var i :| 0 <= i < |ms| && ms[i] == m;
        assert IDs(ms)[i] == id;
      }
    }
  }

  /** The ids after the two halves of an update, in terms of what was missing from and surplus on the record. */
  lemma UpdateKeys(s: State, add: Reply, remove: Reply)
    requires Inv(s)
    ensures s.group.Keys <= AfterAdd(s, add).Keys <= s.group.Keys + s.Desired()
    ensures "" !in AfterAdd(s, add)
    ensures AddPhaseSucceeds(s, add) ==> s.Desired() <= AfterAdd(s, add).Keys
    ensures forall id :: id in AfterUpdate(s, add, remove) <==>
              && id in AfterAdd(s, add)
              && !(AddPhaseSucceeds(s, add) && id in s.Recorded() - s.Desired() && remove.Reaches(id))
  {
    var lacking := Without(s.spec, ByID, s.Recorded());
    WithoutKeys(s.spec, ByID, s.Recorded());
    WithoutKeys(s.status, ByID, s.Desired());
    WithoutEmpty(s.spec, ByID, s.Recorded());
    WithoutEmpty(s.status, ByID, s.Desired());
    AddKeys(s.group, lacking, add);
    SendableSpec(lacking);
    IDsKeys(Without(s.status, ByID, s.Desired()));
    if ToAdd(s) == [] {
      assert lacking == [];
    }
    if ToRemove(s) == [] {
      assert Without(s.status, ByID, s.Desired()) == [];
    }
  }

  // ---------------------------------------------------------------- each call, exactly

  /** The spec asks for ids that are not on record, and every one of them is not empty. */
  ghost predicate Addable(s: State) {
    "" !in s.Desired() - s.Recorded()
  }

  /**
    One update, for every pair of replies. What is missing on record is added, as far as the add reaches; what is
    on record and not wanted is removed, as far as the removal reaches, but only when nothing had to be added or
    all of it was. The update succeeds exactly when each of the two requests is either not needed or done in full.
   */
  lemma UpdateExact(s: State, add: Reply, remove: Reply)
    ensures var added := s.Desired() <= s.Recorded() || (add.Done? && Addable(s));
      && (UpdateSucceeds(s, add, remove) <==> added && (s.Recorded() <= s.Desired() || remove.Done?))
      && (forall id :: id in AfterUpdate(s, add, remove) <==>
            && (id in s.group || (Addable(s) && id in s.Desired() - s.Recorded() && add.Reaches(id)))
            && !(added && id in s.Recorded() - s.Desired() && remove.Reaches(id)))
  {
    AddPhaseExact(s, add);
    NothingToRemove(s);
    WithoutKeys(s.status, ByID, s.Desired());
    IDsKeys(Without(s.status, ByID, s.Desired()));
    assert s.Recorded() <= s.Desired() ==> ToRemove(s) == [] by {
      WithoutEmpty(s.status, ByID, s.Desired());
    }
  }

  lemma AddPhaseExact(s: State, add: Reply)
    ensures AddPhaseSucceeds(s, add) <==> s.Desired() <= s.Recorded() || (add.Done? && Addable(s))
    ensures forall id :: id in AfterAdd(s, add) <==>
              id in s.group || (Addable(s) && id in s.Desired() - s.Recorded() && add.Reaches(id))
    ensures forall id :: id in s.group && !(Addable(s) && id in s.Desired() - s.Recorded() && add.Reaches(id)) ==>
              AfterAdd(s, add)[id] == s.group[id]
  {
    var lacking := Without(s.spec, ByID, s.Recorded());
    WithoutKeys(s.spec, ByID, s.Recorded());
    WithoutEmpty(s.spec, ByID, s.Recorded());
    AddExact(s.group, lacking, add);
    assert ToAdd(s) == [] <==> lacking == [];
  }

  /** The types after an update: what was there keeps its type, a member that was added has the type of the spec. */
  lemma UpdateTypes(s: State, add: Reply, remove: Reply, id: string)
    requires id in AfterUpdate(s, add, remove)
    ensures id in s.group && !(id in s.Desired() - s.Recorded()) ==> AfterUpdate(s, add, remove)[id] == s.group[id]
    ensures DistinctKeys(s.spec, ByID) && Addable(s) && add.Reaches(id) && id !in s.Recorded() ==>
              forall m :: m in s.spec && m.iamID == id ==> AfterUpdate(s, add, remove)[id] == m.memberType
  {
    AddPhaseExact(s, add);
    assert AfterUpdate(s, add, remove)[id] == AfterAdd(s, add)[id];
    if DistinctKeys(s.spec, ByID) && Addable(s) && add.Reaches(id) && id !in s.Recorded() {
      forall m | m in s.spec && m.iamID == id ensures AfterAdd(s, add)[id] == m.memberType {
        var lacking := Without(s.spec, ByID, s.Recorded());
        WithoutKeys(s.spec, ByID, s.Recorded());
        WithoutMembers(s.spec, ByID, s.Recorded());
        assert m in lacking;
        AddedType(s.group, lacking, add, m, s.spec, s.Recorded());
      }
    }
  }

  lemma AddedType(g: Group, lacking: seq<Member>, add: Reply, m: Member, spec: seq<Member>, ks: set<string>)
    requires DistinctKeys(spec, ByID) && lacking == Without(spec, ByID, ks)
    requires m in lacking && "" !in Keys(lacking, ByID) && add.Reaches(m.iamID)
    ensures m.iamID in Add(g, ToSDKAll(lacking), add) && Add(g, ToSDKAll(lacking), add)[m.iamID] == m.memberType
  {
    WithoutDistinct(spec, ks);
    var k :| 0 <= k < |lacking| && lacking[k] == m;
    forall j | k < j < |lacking| ensures lacking[j].iamID != m.iamID {
      assert ByID(lacking[k]) != ByID(lacking[j]);
    }
    AddExact(g, lacking, add);
    assert LastOfItsID(lacking, k);
  }

  /** A create adds what its reply reaches and records the name only when it was done in full. */
  lemma CreateExact(s: State, reply: Reply)
    ensures var t := Next(s, Create(reply)); var ok := "" !in s.Desired();
      && t.spec == s.spec && t.status == s.status
      && t.named == (if reply.Done? && ok then s.target != "" else s.named)
      && (forall id :: id in t.group <==> id in s.group || (ok && id in s.Desired() && reply.Reaches(id)))
      && (forall id :: id in s.group && !(ok && id in s.Desired() && reply.Reaches(id)) ==> t.group[id] == s.group[id])
      && (forall k :: 0 <= k < |s.spec| && ok && LastOfItsID(s.spec, k) && reply.Reaches(s.spec[k].iamID) ==>
            s.spec[k].iamID in t.group && t.group[s.spec[k].iamID] == s.spec[k].memberType)
  {
    AddExact(s.group, s.spec, reply);
  }

  /** An answered Observe of a named, nonempty group puts its members on record with their types, and only that changes. */
  lemma ObserveExact(s: State, read: Read)
    ensures var t := Next(s, Observe(read));
      && t == s.(status := t.status)
      && (!s.named || !read.Listed? || read.members == [] ==> t.status == s.status)
      && (s.named && read.Listed? && read.members != [] ==>
            && |t.status| == |read.members|
            && forall i :: 0 <= i < |t.status| ==>
                 && t.status[i].iamID == FromPtrValue(read.members[i].iamID)
                 && t.status[i].memberType == FromPtrValue(read.members[i].memberType))
    ensures s.named && read.Listed? && read.members != [] && IsListing(read.members, s.group) ==>
      var t := Next(s, Observe(read));
      && t.Recorded() == s.group.Keys
      && forall m: Member :: m in t.status <==> m.iamID in s.group && s.group[m.iamID] == m.memberType
  {
    if s.named && read.Listed? && read.members != [] && IsListing(read.members, s.group) {
      var l := FromSDKAll(read.members);
      forall m: Member | m.iamID in s.group && s.group[m.iamID] == m.memberType ensures m in l {
        var x :| x in l && ByID(x) == m.iamID;
        assert x == m;
      }
    }
  }

  /** One more member at the end of a listing. */
  lemma ListingStep(rest: seq<SDKMember>, g: Group, id: string, memberType: string)
    requires IsListing(rest, g) && id !in g
    ensures IsListing(rest + [ToSDK(Member(id, memberType))], g[id := memberType])
  {
    var m := Member(id, memberType);
    var before, ms := FromSDKAll(rest), FromSDKAll(rest + [ToSDK(m)]);
    assert ms == before + [m];
    assert ms[..|before|] == before && ms[..|before| + 1] == ms;
    KeysStep(ms, |before|);
    forall i | 0 <= i < |before| ensures ByID(before[i]) in g.Keys {
      KeyOf(before, ByID, before[i]);
    }
  }

  /** Every group can be listed. */
  lemma {:induction false} ListingExists(g: Group) returns (l: seq<SDKMember>)
    ensures IsListing(l, g)
    decreases |g|
  {
    if g == map[] {
      l := [];
      assert FromSDKAll(l) == [];
    } else {
      var id :| id in g;
      var smaller := g - {id};
      var rest := ListingExists(smaller);
      ListingStep(rest, smaller, id, g[id]);
      l := rest + [ToSDK(Member(id, g[id]))];
      assert g == smaller[id := g[id]];
    }
  }

  // ---------------------------------------------------------------- what every step keeps

  /** No step loses a desired id or gains a surplus one, and the spec never changes. */
  lemma StepKeeps(s: State, a: Action)
    requires Inv(s) && Enabled(s, a) && !a.Delete?
    ensures Inv(Next(s, a)) && Next(s, a).spec == s.spec && Next(s, a).target == s.target
    ensures Next(s, a).Missing() <= s.Missing() && Next(s, a).Surplus() <= s.Surplus()
    ensures s.Desired() * s.group.Keys <= Next(s, a).group.Keys <= s.group.Keys + s.Desired()
    ensures Tracked(s) ==> Tracked(Next(s, a))
    ensures s.named && s.target != "" ==> Next(s, a).named
  {
    match a
    case Observe(read) =>
    case Create(reply) =>
      AddKeys(s.group, s.spec, reply);
      SendableSpec(s.spec);
    case Update(add, remove) =>
      UpdateKeys(s, add, remove);
  }

  lemma SmallerGap(s: State, t: State)
    requires t.Missing() <= s.Missing() && t.Surplus() <= s.Surplus()
    ensures t.Gap() <= s.Gap()
  {
    SubsetSize(t.Missing(), s.Missing());
    SubsetSize(t.Surplus(), s.Surplus());
  }

  lemma {:induction false} SubsetSize<T>(a: set<T>, b: set<T>)
    requires a <= b
    ensures |a| <= |b|
  {
    if a != {} {
      var x :| x in a;
      SubsetSize(a - {x}, b - {x});
    }
  }

  /**
    Safety over whole runs: whatever calls are made, in whatever order, and however they fail, no desired id
    is ever lost, no surplus id is ever gained, and the number of ids that are missing or surplus never grows.
   */
  lemma {:induction false} RunSafety(s: State, actions: seq<Action>)
    requires Inv(s) && Admissible(s, actions)
    ensures var t := Run(s, actions);
      && Inv(t) && t.spec == s.spec
      && s.Desired() * s.group.Keys <= t.group.Keys
      && t.group.Keys <= s.group.Keys + s.Desired()
      && t.Gap() <= s.Gap()
      && (Tracked(s) ==> Tracked(t))
      && t.target == s.target && (s.named && s.target != "" ==> t.named)
    decreases |actions|
  {
    if actions != [] {
      StepKeeps(s, actions[0]);
      SmallerGap(s, Next(s, actions[0]));
      RunSafety(Next(s, actions[0]), actions[1..]);
    }
  }

  /** An update that takes any id away leaves every desired id in place, and takes away no desired id. */
  lemma RemovalsWaitForAdditions(s: State, add: Reply, remove: Reply, id: string)
    requires Inv(s)
    requires id in s.group && id !in AfterUpdate(s, add, remove)
    ensures id !in s.Desired()
    ensures s.Desired() <= AfterAdd(s, add).Keys && s.Desired() <= AfterUpdate(s, add, remove).Keys
  {
    UpdateKeys(s, add, remove);
  }

  /** No run with a nonempty spec ever empties the group. */
  lemma {:induction false} NeverEmptied(s: State, actions: seq<Action>)
    requires Inv(s) && Admissible(s, actions)
    requires s.spec != [] && s.group.Keys != {}
    ensures Run(s, actions).group.Keys != {}
    decreases |actions|
  {
    if actions != [] {
      var t := Next(s, actions[0]);
      StepKeeps(s, actions[0]);
      var id :| id in s.group;
      if id !in t.group {
        var a := actions[0];
        if a.Update? {
          RemovalsWaitForAdditions(s, a.add, a.remove, id);
        } else if a.Create? {
          AddKeys(s.group, s.spec, a.reply);
        }
        KeyOf(s.spec, ByID, s.spec[0]);
        assert s.spec[0].iamID in t.group.Keys;
      }
      NeverEmptied(t, actions[1..]);
    }
  }

  // ---------------------------------------------------------------- convergence

  /** A fully successful update leaves the desired ids and the surplus that is not on record. */
  lemma UpdateLeaves(s: State, add: Reply, remove: Reply)
    requires Inv(s) && UpdateSucceeds(s, add, remove)
    ensures AfterUpdate(s, add, remove).Keys == s.Desired() + (s.Surplus() - s.Recorded())
  {
    UpdateKeys(s, add, remove);
    NothingToRemove(s);
    assert ToRemove(s) != [] ==> remove.Done?;
    forall id ensures id in AfterUpdate(s, add, remove) <==> id in s.Desired() || id in s.Surplus() - s.Recorded() {
      if id in s.Recorded() - s.Desired() {
        assert remove.Reaches(id);
      }
    }
  }

  /** Hence it closes the gap exactly when the whole surplus is on record. */
  lemma UpdateCloses(s: State, add: Reply, remove: Reply)
    requires Inv(s) && UpdateSucceeds(s, add, remove)
    ensures Next(s, Update(add, remove)).Gap() == 0 <==> Tracked(s)
    ensures Tracked(s) ==> AfterUpdate(s, add, remove).Keys == s.Desired()
  {
    UpdateLeaves(s, add, remove);
    GapOf(Next(s, Update(add, remove)), s.Surplus() - s.Recorded());
  }

  lemma GapOf(t: State, left: set<string>)
    requires t.group.Keys == t.Desired() + left && t.Desired() !! left
    ensures t.Gap() == |left|
  {
    assert t.Missing() == {} && t.Surplus() == left;
  }

  /** No Observe of this run is answered with a listing. */
  ghost predicate Blind(actions: seq<Action>) {
    forall i :: 0 <= i < |actions| && actions[i].Observe? ==> !actions[i].read.Listed?
  }

  /** A surplus id that is not on record survives every run without an answered Observe, and stays off the record. */
  lemma {:induction false} UnrecordedSurplusStays(s: State, actions: seq<Action>, id: string)
    requires Inv(s) && Admissible(s, actions) && Blind(actions)
    requires id in s.Surplus() - s.Recorded()
    ensures id in Run(s, actions).Surplus() - Run(s, actions).Recorded()
    decreases |actions|
  {
    if actions != [] {
      var a := actions[0];
      StepKeeps(s, a);
      if a.Update? {
        UpdateKeys(s, a.add, a.remove);
      } else if a.Create? {
        AddKeys(s.group, s.spec, a.reply);
      }
      assert forall i :: 0 <= i < |actions[1..]| ==> actions[1..][i] == actions[i + 1];
      UnrecordedSurplusStays(Next(s, a), actions[1..], id);
    }
  }

  /**
    Convergence without an answered Observe, over whole runs: whatever is called before it and however that
    fails, a successful update closes the gap exactly when the record held the whole surplus from the start.
   */
  lemma BlindRunCloses(s: State, actions: seq<Action>, add: Reply, remove: Reply)
    requires Inv(s) && Admissible(s, actions) && Blind(actions)
    requires UpdateSucceeds(Run(s, actions), add, remove)
    ensures Next(Run(s, actions), Update(add, remove)).Gap() == 0 <==> Tracked(s)
  {
    RunSafety(s, actions);
    UpdateCloses(Run(s, actions), add, remove);
    if !Tracked(s) {
      var id :| id in s.Surplus() && id !in s.Recorded();
      UnrecordedSurplusStays(s, actions, id);
    }
  }

  /** A group with one foreign member: Create and Update both succeed in full, and the foreign member is still there. */
  lemma ForeignMemberSurvives()
    ensures var s := State([Member("a", "user")], "g", [], false, map["f" := "user"]);
      && Inv(s) && Admissible(s, [Create(Done)])
      && UpdateSucceeds(Run(s, [Create(Done)]), Done, Done)
      && Next(Run(s, [Create(Done)]), Update(Done, Done)).Gap() > 0
  {
    var s := State([Member("a", "user")], "g", [], false, map["f" := "user"]);
    var t := Next(s, Create(Done));
    assert [Create(Done)][1..] == [] && Run(s, [Create(Done)]) == t;
    assert s.Desired() == {"a"} by {
      KeyOf(s.spec, ByID, s.spec[0]);
    }
    assert "f" != "a" && "a" != "";
    SendableSpec(Without(s.spec, ByID, {}));
    WithoutKeys(s.spec, ByID, {});
    assert "f" in s.Surplus() - s.Recorded();
    BlindRunCloses(s, [Create(Done)], Done, Done);
  }

  lemma NothingToRemove(s: State)
    ensures ToRemove(s) == [] ==> s.Recorded() <= s.Desired()
  {
    WithoutEmpty(s.status, ByID, s.Desired());
    if ToRemove(s) == [] {
      assert Without(s.status, ByID, s.Desired()) == [];
    }
  }

  /** An answered Observe of the named group puts the whole surplus on record, even when the listing is empty. */
  lemma ObserveTracks(s: State, read: Read)
    requires Inv(s) && s.named && read.Listed? && IsListing(read.members, s.group)
    ensures Tracked(AfterObserve(s, read))
  {
    if read.members == [] {
      assert FromSDKAll(read.members) == [];
      assert s.group.Keys == {};
    }
  }

  lemma RunAppend(s: State, xs: seq<Action>, ys: seq<Action>)
    ensures Run(s, xs + ys) == Run(Run(s, xs), ys)
    ensures Admissible(s, xs + ys) <==> Admissible(s, xs) && Admissible(Run(s, xs), ys)
    decreases |xs|
  {
    if xs == [] {
      assert xs + ys == ys;
    } else {
      assert (xs + ys)[0] == xs[0] && (xs + ys)[1..] == xs[1..] + ys;
      RunAppend(Next(s, xs[0]), xs[1..], ys);
    }
  }

  lemma ClosedStaysClosed(s: State, actions: seq<Action>)
    requires Inv(s) && Admissible(s, actions) && s.group.Keys == s.Desired()
    ensures Closed(Run(s, actions))
  {
    RunSafety(s, actions);
    GapOf(Run(s, actions), {});
  }

  lemma TrackedRunConverges(s: State, middle: seq<Action>, add: Reply, remove: Reply, after: seq<Action>)
    requires Inv(s) && Tracked(s)
    requires Admissible(s, middle + ([Update(add, remove)] + after))
    requires UpdateSucceeds(Run(s, middle), add, remove)
    ensures Closed(Run(s, middle + ([Update(add, remove)] + after)))
  {
    RunAppend(s, middle, [Update(add, remove)] + after);
    RunSafety(s, middle);
    var u, a := Run(s, middle), Update(add, remove);
    assert ([a] + after)[0] == a && ([a] + after)[1..] == after;
    UpdateCloses(u, add, remove);
    StepKeeps(u, a);
    ClosedStaysClosed(Next(u, a), after);
  }

  ghost predicate Closed(s: State) {
    s.group.Keys == s.Desired() && s.Gap() == 0
  }

  /**
    Convergence over whole runs: after any prefix, an answered Observe of the named group, and any further
    steps and failures, the first update that succeeds closes the gap, and no later step opens it again.
   */
  lemma RunConverges(s: State, before: seq<Action>, read: Read, middle: seq<Action>,
                     add: Reply, remove: Reply, after: seq<Action>)
    requires Inv(s)
    requires Admissible(s, before + ([Observe(read)] + (middle + ([Update(add, remove)] + after))))
    requires Run(s, before).named && read.Listed?
    requires UpdateSucceeds(Run(AfterObserve(Run(s, before), read), middle), add, remove)
    ensures Closed(Run(s, before + ([Observe(read)] + (middle + ([Update(add, remove)] + after)))))
  {
    var rest := middle + ([Update(add, remove)] + after);
    var actions := [Observe(read)] + rest;
    RunAppend(s, before, actions);
    RunSafety(s, before);
    var s1 := Run(s, before);
    assert actions[0] == Observe(read) && actions[1..] == rest;
    ObserveTracks(s1, read);
    StepKeeps(s1, Observe(read));
    TrackedRunConverges(AfterObserve(s1, read), middle, add, remove, after);
  }

  /** A spec that names a member with an empty id is never met, in any run. */
  lemma EmptyIDNeverMet(s: State, actions: seq<Action>)
    requires Inv(s) && Admissible(s, actions) && "" in s.Desired()
    ensures Run(s, actions).Gap() > 0
  {
    RunSafety(s, actions);
    var t := Run(s, actions);
    assert "" in t.Missing();
  }

  /**
    Success is attainable: after an answered Observe of the named group, an update in which the remote does what
    it is asked closes the gap exactly when the spec names no empty id.
   */
  lemma MetUnlessEmptyID(s: State, read: Read)
    requires Inv(s) && s.named && read.Listed? && IsListing(read.members, s.group)
    ensures Next(AfterObserve(s, read), Update(Done, Done)).Gap() == 0 <==> "" !in s.Desired()
  {
    var t := AfterObserve(s, read);
    StepKeeps(s, Observe(read));
    ObserveTracks(s, read);
    if "" in s.Desired() {
      StepKeeps(t, Update(Done, Done));
      assert "" in Next(t, Update(Done, Done)).Missing();
    } else {
      WithoutKeys(t.spec, ByID, t.Recorded());
      SendableSpec(Without(t.spec, ByID, t.Recorded()));
      UpdateCloses(t, Done, Done);
    }
  }

  /**
    After Observe and a successful Update, the next Observe is up to date exactly when the types of the
    previously shared ids agreed: the update adds missing members with their type but never corrects a type.
   */
  lemma UpToDateAfterUpdate(s: State, read: Read, add: Reply, remove: Reply, again: Read, upToDate: bool)
    requires Inv(s) && s.named && DistinctKeys(s.spec, ByID)
    requires read.Listed? && IsListing(read.members, s.group)
    requires UpdateSucceeds(AfterObserve(s, read), add, remove)
    requires again.Listed? && IsListing(again.members, AfterUpdate(AfterObserve(s, read), add, remove))
    requires MayReport(s.spec, FromSDKAll(again.members), ByID, upToDate)
    ensures upToDate <==> TypesAgree(s.spec, FromSDKAll(read.members))
  {
    var s1 := AfterObserve(s, read);
    var l := FromSDKAll(again.members);
    ObserveTracks(s, read);
    StepKeeps(s, Observe(read));
    UpdateCloses(s1, add, remove);
    TestAgreesWithDiff(s.spec, l, upToDate);
    WithoutEmpty(s.spec, ByID, Keys(l, ByID));
    WithoutEmpty(l, ByID, Keys(s.spec, ByID));
    assert upToDate <==> TypesAgree(s.spec, l) by {
      assert Without(s.spec, ByID, Keys(l, ByID)) == [] && Without(l, ByID, Keys(s.spec, ByID)) == [];
    }
    forall m | m in s.spec ensures TypeAfterUpdate(s1, add, remove, m) {
      TypeAfterUpdateHolds(s1, add, remove, m);
    }
    TypesThroughListing(s.spec, l, AfterUpdate(s1, add, remove));
    TypesThroughListing(s.spec, FromSDKAll(read.members), s.group);
  }

  /** A desired member that was on record keeps its old type; any other now has the type of the spec. */
  ghost predicate TypeAfterUpdate(s: State, add: Reply, remove: Reply, m: Member) {
    var g := AfterUpdate(s, add, remove);
    && m.iamID in g
    && (m.iamID in s.Recorded() ==> m.iamID in s.group && g[m.iamID] == s.group[m.iamID])
    && (m.iamID !in s.Recorded() ==> g[m.iamID] == m.memberType)
  }

  lemma TypeAfterUpdateHolds(s: State, add: Reply, remove: Reply, m: Member)
    requires Inv(s) && Tracked(s) && DistinctKeys(s.spec, ByID) && UpdateSucceeds(s, add, remove) && m in s.spec
    ensures TypeAfterUpdate(s, add, remove, m)
  {
    UpdateCloses(s, add, remove);
    KeyOf(s.spec, ByID, m);
    var lacking := Without(s.spec, ByID, s.Recorded());
    WithoutKeys(s.spec, ByID, s.Recorded());
    WithoutMembers(s.spec, ByID, s.Recorded());
    SDKRoundTrip(lacking);
    if m.iamID in s.Recorded() {
      AddReachedKeepsOthers(s.group, ToSDKAll(lacking), add, m.iamID);
    } else {
      assert m in lacking;
      SendableSpec(lacking);
      AddedType(s.group, lacking, add, m, s.spec, s.Recorded());
    }
  }

  lemma {:induction false} WithoutDistinct(ms: seq<Member>, ks: set<string>)
    requires DistinctKeys(ms, ByID)
    ensures DistinctKeys(Without(ms, ByID, ks), ByID)
  {
    if ms != [] {
      var n := |ms| - 1;
      WithoutDistinct(ms[..n], ks);
      WithoutMembers(ms[..n], ByID, ks);
      var kept := Without(ms[..n], ByID, ks);
      forall i | 0 <= i < |kept| ensures kept[i].iamID != ms[n].iamID {
        assert kept[i] in kept;
        assert kept[i] in ms[..n];
        var j :| 0 <= j < n && ms[j] == kept[i];
        assert ByID(ms[j]) != ByID(ms[n]);
      }
    }
  }

  /** Agreement with a listing is agreement with the group it lists. */
  lemma TypesThroughListing(spec: seq<Member>, l: seq<Member>, g: Group)
    requires Keys(l, ByID) == g.Keys && forall m :: m in l ==> m.iamID in g && g[m.iamID] == m.memberType
    ensures TypesAgree(spec, l) <==> forall m :: m in spec && m.iamID in g ==> g[m.iamID] == m.memberType
  {
    if TypesAgree(spec, l) {
      forall m | m in spec && m.iamID in g ensures g[m.iamID] == m.memberType {
        assert m.iamID in Keys(l, ByID);
        var a :| a in l && ByID(a) == m.iamID;
      }
    }
  }

  /** A desired member that is on record and present, but with another type. */
  ghost predicate Mistyped(s: State, m: Member) {
    && m in s.spec && m.iamID in s.Recorded()
    && m.iamID in s.group && s.group[m.iamID] != m.memberType
  }

  /**
    A wrong type on record is never corrected: through any observes and updates, however they end, the remote
    type stays as it is and no listing is ever reported up to date.
   */
  lemma {:induction false} WrongTypeIsStuck(s: State, actions: seq<Action>, m: Member)
    requires Inv(s) && Admissible(s, actions) && Mistyped(s, m)
    requires forall i :: 0 <= i < |actions| ==> actions[i].Observe? || actions[i].Update?
    ensures var t := Run(s, actions);
      && Mistyped(t, m) && t.group[m.iamID] == s.group[m.iamID]
      && forall l :: IsListing(l, t.group) ==> !MayReport(t.spec, FromSDKAll(l), ByID, true)
    decreases |actions|
  {
    if actions != [] {
      StepKeeps(s, actions[0]);
      MistypedStep(s, actions[0], m);
      WrongTypeIsStuck(Next(s, actions[0]), actions[1..], m);
    } else {
      forall l | IsListing(l, s.group) ensures !MayReport(s.spec, FromSDKAll(l), ByID, true) {
        assert m in multiset(s.spec) && m !in multiset(FromSDKAll(l));
        if MayReport(s.spec, FromSDKAll(l), ByID, true) {
          ReportSound(s.spec, FromSDKAll(l), ByID);
          assert false;
        }
      }
    }
  }

  lemma MistypedStep(s: State, a: Action, m: Member)
    requires Inv(s) && Enabled(s, a) && Mistyped(s, m) && (a.Observe? || a.Update?)
    ensures Mistyped(Next(s, a), m) && Next(s, a).group[m.iamID] == s.group[m.iamID]
  {
    if a.Update? {
      var lacking := Without(s.spec, ByID, s.Recorded());
      WithoutKeys(s.spec, ByID, s.Recorded());
      SDKRoundTrip(lacking);
      AddReachedKeepsOthers(s.group, ToSDKAll(lacking), a.add, m.iamID);
      KeyOf(s.spec, ByID, m);
      UpdateKeys(s, a.add, a.remove);
    } else if Next(s, a) != s {
      assert s.group.Keys == Next(s, a).Recorded();
    }
  }

  // ---------------------------------------------------------------- deletion

  /** A run in which the resource is being deleted. */
  ghost predicate Deleting(actions: seq<Action>) {
    forall i :: 0 <= i < |actions| ==> actions[i].Observe? || actions[i].Delete?
  }

  /** Some delete of the run gets through to this id. */
  ghost predicate Reached(actions: seq<Action>, id: string) {
    exists i :: 0 <= i < |actions| && actions[i].Delete? && actions[i].reply.Reaches(id)
  }

  /** A delete removes exactly the ids of the spec that it reaches, and repeating it changes nothing. */
  lemma DeleteRemovesSpec(s: State, reply: Reply)
    ensures var t := Next(s, Delete(reply));
      && (forall id :: id in t.group <==> id in s.group && !(id in s.Desired() && reply.Reaches(id)))
      && (forall id :: id in t.group ==> t.group[id] == s.group[id])
      && Next(t, Delete(reply)) == t
  {
    IDsKeys(s.spec);
    var t := Next(s, Delete(reply));
    assert Next(t, Delete(reply)).group == t.group;
  }

  /**
    Over every run of deletes and observes, however the deletes fail: exactly those ids of the spec are gone
    that some delete reached, and nothing else has changed.
   */
  lemma {:induction false} DeletionRun(s: State, actions: seq<Action>)
    requires Deleting(actions)
    ensures var t := Run(s, actions);
      && t.spec == s.spec
      && (forall id :: id in t.group <==> id in s.group && !(id in s.Desired() && Reached(actions, id)))
      && (forall id :: id in t.group ==> t.group[id] == s.group[id])
    decreases |actions|
  {
    if actions != [] {
      var a, rest := actions[0], actions[1..];
      var t := Next(s, a);
      if a.Delete? {
        DeleteRemovesSpec(s, a.reply);
      }
      assert forall i :: 0 <= i < |rest| ==> rest[i] == actions[i + 1];
      DeletionRun(t, rest);
      forall id ensures Reached(actions, id) <==> (a.Delete? && a.reply.Reaches(id)) || Reached(rest, id) {
        ReachedStep(actions, id);
      }
    }
  }

  lemma ReachedStep(actions: seq<Action>, id: string)
    requires actions != []
    ensures Reached(actions, id) <==>
              (actions[0].Delete? && actions[0].reply.Reaches(id)) || Reached(actions[1..], id)
  {
    var rest := actions[1..];
    if Reached(rest, id) {
      var i :| 0 <= i < |rest| && rest[i].Delete? && rest[i].reply.Reaches(id);
      assert actions[i + 1] == rest[i];
    }
    if Reached(actions, id) {
      var i :| 0 <= i < |actions| && actions[i].Delete? && actions[i].reply.Reaches(id);
      assert i > 0 ==> rest[i - 1] == actions[i];
    }
  }

  /** The Observe after a run of deletes finds nothing exactly when every remote member was in the spec and reached. */
  lemma DeleteThenObserve(s: State, actions: seq<Action>, again: Read)
    requires Deleting(actions)
    requires again.Listed? && IsListing(again.members, Run(s, actions).group)
    ensures again.members == [] <==> forall id :: id in s.group ==> id in s.Desired() && Reached(actions, id)
    ensures Delete(Done) in actions ==> (again.members == [] <==> s.group.Keys <= s.Desired())
  {
    DeletionRun(s, actions);
    var l := FromSDKAll(again.members);
    var left := Run(s, actions).group.Keys;
    assert Keys(l, ByID) == left;
    if l != [] {
      KeyOf(l, ByID, l[0]);
      assert l[0].iamID in left;
    } else {
      assert left == {};
    }
    if Delete(Done) in actions {
      forall id ensures Reached(actions, id) {
        DoneReaches(actions, id);
      }
    }
  }

  lemma DoneReaches(actions: seq<Action>, id: string)
    requires Delete(Done) in actions
    ensures Reached(actions, id)
  {
    var i :| 0 <= i < |actions| && actions[i] == Delete(Done);
    assert actions[i].reply.Reaches(id);
  }

  /**
    After a converged update, deletion ends at the first delete that reaches all its items, whatever earlier
    deletes left undone.
   */
  lemma DeleteAfterConvergence(s: State, add: Reply, remove: Reply, actions: seq<Action>, again: Read)
    requires Inv(s) && Tracked(s) && UpdateSucceeds(s, add, remove)
    requires Deleting(actions) && Delete(Done) in actions
    requires again.Listed? && IsListing(again.members, Run(Next(s, Update(add, remove)), actions).group)
    ensures again.members == []
  {
    UpdateCloses(s, add, remove);
    DeleteThenObserve(Next(s, Update(add, remove)), actions, again);
  }
}
