/** pkg/clients/ibmcloud.go and ibmcloud_helpers.go: bringing the tags of a resource instance to a desired list. */
module Tags {

  import opened Lists

  const Same: string -> string := (t: string) => t

  ghost function SetOf(ts: seq<string>): set<string> {
    set t | t in ts
  }

  lemma KeysAreTags(ts: seq<string>)
    ensures Keys(ts, Same) == SetOf(ts)
  {
    forall t | t in SetOf(ts) ensures t in Keys(ts, Same) {
      KeyOf(ts, Same, t);
    }
  }

  method Collect(ts: seq<string>) returns (m: map<string, bool>)
    ensures m.Keys == SetOf(ts)
  {
    m := map[];
    for i := 0 to |ts|
      invariant m.Keys == SetOf(ts[..i])
    {
      m := m[ts[i] := true];
      assert ts[..i + 1] == ts[..i] + [ts[i]];
    }
    assert ts[..|ts|] == ts;
  }

  method TagsDiff(desired: seq<string>, actual: seq<string>) returns (toAttach: seq<string>, toDetach: seq<string>)
    ensures toAttach == Without(desired, Same, SetOf(actual))
    ensures toDetach == Without(actual, Same, SetOf(desired))
  {
    toAttach, toDetach := [], [];
    var dMap := Collect(desired);
    var aMap := Collect(actual);
    for i := 0 to |desired|
      invariant toAttach == Without(desired[..i], Same, aMap.Keys)
    {
      WithoutStep(desired, Same, aMap.Keys, i);
      if desired[i] !in aMap {
        toAttach := toAttach + [desired[i]];
      }
    }
    for i := 0 to |actual|
      invariant toDetach == Without(actual[..i], Same, dMap.Keys)
    {
      WithoutStep(actual, Same, dMap.Keys, i);
      if actual[i] !in dMap {
        toDetach := toDetach + [actual[i]];
      }
    }
    assert desired[..|desired|] == desired && actual[..|actual|] == actual;
  }

  lemma WithoutSet(ts: seq<string>, ks: set<string>)
    ensures SetOf(Without(ts, Same, ks)) == SetOf(ts) - ks
  {
    WithoutMembers(ts, Same, ks);
  }

  /**
    The diff partitions what differs: each tag keeps its multiplicity or is dropped whole, nothing is both
    attached and detached, and applying both results to the actual set gives the desired one.
   */
  lemma DiffExact(desired: seq<string>, actual: seq<string>, t: string)
    ensures var toAttach, toDetach :=
        Without(desired, Same, SetOf(actual)), Without(actual, Same, SetOf(desired));
      && multiset(toAttach)[t] == (if t in actual then 0 else multiset(desired)[t])
      && multiset(toDetach)[t] == (if t in desired then 0 else multiset(actual)[t])
      && SetOf(toAttach) !! SetOf(toDetach)
      && (SetOf(actual) - SetOf(toDetach)) + SetOf(toAttach) == SetOf(desired)
  {
    WithoutCounts(desired, Same, SetOf(actual), t);
    WithoutCounts(actual, Same, SetOf(desired), t);
    WithoutSet(desired, SetOf(actual));
    WithoutSet(actual, SetOf(desired));
  }

  /** How a write ends: it succeeds, or it fails after reaching some of its tags. */
  datatype Reply = Done | Refused(reached: set<string>)
  {
    predicate Reaches(t: string) {
      Done? || t in reached
    }
  }

  /** One call, with everything the remote chooses: the listing it returns (or an error) and the two replies. */
  datatype Call = ReadError | Call(listing: seq<string>, attach: Reply, detach: Reply)

  /** The tags that a request gets through to. */
  ghost function Reached(ts: seq<string>, reply: Reply): set<string> {
    set t | t in ts && reply.Reaches(t)
  }

  datatype Effect = Effect(tags: set<string>, writes: nat, ok: bool)

  /** What one update does to a tag set, how many writes it issues, and whether it succeeds. */
  ghost function UpdateEffect(tags: set<string>, desired: seq<string>, call: Call): Effect {
    match call
    case ReadError => Effect(tags, 0, false)
    case Call(listing, attach, detach) =>
      var toAttach := Without(desired, Same, SetOf(listing));
      var toDetach := Without(listing, Same, SetOf(desired));
      var attached := tags + Reached(toAttach, attach);
      var w := if toAttach == [] then 0 else 1;
      if toAttach != [] && !attach.Done? then Effect(attached, w, false)
      else if toDetach == [] then Effect(attached, w, true)
      else Effect(attached - Reached(toDetach, detach), w + 1, detach.Done?)
  }

  ghost predicate Enabled(tags: set<string>, call: Call) {
    call.Call? ==> SetOf(call.listing) == tags
  }

  /** The remote tag set of one resource; `writes` counts the attach and detach requests it received. */
  class TagService {
    var tags: set<string>
    var writes: nat

    constructor (tags: set<string>)
      ensures this.tags == tags && writes == 0
    {
      this.tags, writes := tags, 0;
    }

    method Attach(ts: seq<string>, reply: Reply) returns (failed: bool)
      modifies this
      ensures tags == old(tags) + Reached(ts, reply) && writes == old(writes) + 1
      ensures failed <==> !reply.Done?
    {
      tags := tags + set t | t in ts && reply.Reaches(t);
      writes := writes + 1;
      failed := !reply.Done?;
    }

    method Detach(ts: seq<string>, reply: Reply) returns (failed: bool)
      modifies this
      ensures tags == old(tags) - Reached(ts, reply) && writes == old(writes) + 1
      ensures failed <==> !reply.Done?
    {
      tags := tags - set t | t in ts && reply.Reaches(t);
      writes := writes + 1;
      failed := !reply.Done?;
    }
  }

  /** Copies the names of a listing; an empty listing comes back as an empty list. */
  method GetResourceInstanceTags(call: Call) returns (ts: seq<string>, failed: bool)
    ensures failed <==> call.ReadError?
    ensures !failed ==> ts == call.listing
  {
    ts, failed := [], false;
    match call
    case ReadError => failed := true;
    case Call(listing, _, _) =>
      if |listing| == 0 {
        return;
      }
      for i := 0 to |listing|
        invariant ts == listing[..i]
      {
        ts := ts + [listing[i]];
      }
  }

  method UpdateResourceInstanceTags(client: TagService, desired: seq<string>, call: Call) returns (failed: bool)
    modifies client
    ensures var e := UpdateEffect(old(client.tags), desired, call);
      client.tags == e.tags && client.writes == old(client.writes) + e.writes && failed == !e.ok
  {
    var actual, readFailed := GetResourceInstanceTags(call);
    if readFailed {
      return true;
    }
    var toAttach, toDetach := TagsDiff(desired, actual);
    assert toAttach == [] ==> Reached(toAttach, call.attach) == {};
    if |toAttach| > 0 {
      failed := client.Attach(toAttach, call.attach);
      if failed {
        return;
      }
    }
    if |toDetach| > 0 {
      failed := client.Detach(toDetach, call.detach);
      if failed {
        return;
      }
    }
    failed := false;
  }

  /**
    One call against a faithful listing, for every pair of replies: each tag, the number of writes and the result.
    What is lacking is attached as far as that request reaches; what is too much is detached as far as that request
    reaches, but only when nothing had to be attached or all of it was. The call succeeds exactly when each request
    is either not needed or done in full.
   */
  lemma UpdateExact(tags: set<string>, desired: seq<string>, call: Call)
    requires Enabled(tags, call)
    ensures call.ReadError? ==> UpdateEffect(tags, desired, call) == Effect(tags, 0, false)
    ensures call.Call? ==>
      var e, goal := UpdateEffect(tags, desired, call), SetOf(desired);
      var attached := goal <= tags || call.attach.Done?;
      && (e.ok <==> attached && (tags <= goal || call.detach.Done?))
      && e.writes == (if goal <= tags then 0 else 1) + (if attached && !(tags <= goal) then 1 else 0)
      && (forall t :: t in e.tags <==>
            && (t in tags || (t in goal && call.attach.Reaches(t)))
            && !(attached && t in tags - goal && call.detach.Reaches(t)))
  {
    if call.Call? {
      ReachedExact(desired, tags, call.attach);
      ReachedExact(call.listing, SetOf(desired), call.detach);
    }
  }

  /** What a request for the tags that are not covered gets through to, and when there is nothing to request. */
  lemma ReachedExact(ts: seq<string>, ks: set<string>, reply: Reply)
    ensures forall t :: t in Reached(Without(ts, Same, ks), reply) <==> t in SetOf(ts) && t !in ks && reply.Reaches(t)
    ensures Without(ts, Same, ks) == [] <==> SetOf(ts) <= ks
  {
    WithoutSet(ts, ks);
    var kept := Without(ts, Same, ks);
    assert forall t :: t in kept <==> t in SetOf(kept);
    if kept != [] {
      assert kept[0] in SetOf(kept);
    } else {
      assert SetOf(kept) == {};
      forall t | t in SetOf(ts) ensures t in ks {
        assert t !in SetOf(kept);
      }
    }
  }

  /**
    One call against a faithful listing, in any order and with any repetitions. Success means the goal is
    reached; every failure leaves the set between the old one and the goal, and no removal happens before all
    desired tags are there; an already equal set is not written to.
   */
  lemma UpdateReachesGoal(tags: set<string>, desired: seq<string>, call: Call)
    requires Enabled(tags, call)
    ensures var e := UpdateEffect(tags, desired, call);
      && (e.ok ==> e.tags == SetOf(desired))
      && tags * SetOf(desired) <= e.tags <= tags + SetOf(desired)
      && (tags <= e.tags || SetOf(desired) <= e.tags)
      && (call.Call? && call.attach.Done? ==> SetOf(desired) <= e.tags)
      && (tags == SetOf(desired) ==> e.tags == tags && e.writes == 0 && e.ok == call.Call?)
  {
    match call
    case ReadError =>
    case Call(listing, attach, detach) =>
      var toAttach := Without(desired, Same, SetOf(listing));
      var toDetach := Without(listing, Same, SetOf(desired));
      ReachedBounds(desired, tags, attach);
      ReachedBounds(listing, SetOf(desired), detach);
      GoalBySets(tags, SetOf(desired), Reached(toAttach, attach), Reached(toDetach, detach));
  }

  lemma ReachedBounds(ts: seq<string>, ks: set<string>, reply: Reply)
    ensures var kept := Without(ts, Same, ks);
      && Reached(kept, reply) <= SetOf(ts) - ks
      && (reply.Done? ==> Reached(kept, reply) == SetOf(ts) - ks)
      && (kept == [] <==> SetOf(ts) - ks == {})
  {
    WithoutSet(ts, ks);
    WithoutEmpty(ts, Same, ks);
    KeysAreTags(ts);
    var kept := Without(ts, Same, ks);
    if kept != [] {
      assert kept[0] in SetOf(kept);
    }
  }

  lemma GoalBySets(tags: set<string>, goal: set<string>, attached: set<string>, detached: set<string>)
    requires attached <= goal - tags && detached <= tags - goal
    ensures tags * goal <= tags + attached <= tags + goal
    ensures tags * goal <= tags + attached - detached <= tags + goal
    ensures attached == goal - tags ==> goal <= tags + attached - detached
    ensures attached == goal - tags && detached == tags - goal ==> tags + attached - detached == goal
    ensures tags - goal == {} && attached == goal - tags ==> tags + attached == goal
    ensures tags == goal ==> tags + attached == goal && goal - tags == {} && tags - goal == {}
  {
  }

  ghost function RunTags(tags: set<string>, desired: seq<string>, calls: seq<Call>): set<string>
    decreases |calls|
  {
    if calls == [] then tags
    else RunTags(UpdateEffect(tags, desired, calls[0]).tags, desired, calls[1..])
  }

  ghost predicate Admissible(tags: set<string>, desired: seq<string>, calls: seq<Call>)
    decreases |calls|
  {
    calls != [] ==>
      && Enabled(tags, calls[0])
      && Admissible(UpdateEffect(tags, desired, calls[0]).tags, desired, calls[1..])
  }

  /** Over any run of retries with arbitrary failures the set stays between the start and the goal. */
  lemma {:induction false} RetriesStayBetween(tags: set<string>, desired: seq<string>, calls: seq<Call>)
    requires Admissible(tags, desired, calls)
    ensures tags * SetOf(desired) <= RunTags(tags, desired, calls) <= tags + SetOf(desired)
    decreases |calls|
  {
    if calls != [] {
      UpdateReachesGoal(tags, desired, calls[0]);
      RetriesStayBetween(UpdateEffect(tags, desired, calls[0]).tags, desired, calls[1..]);
    }
  }

  /** The first call that succeeds completes whatever the failed ones left undone, and later calls keep the goal. */
  lemma {:induction false} RetryCompletes(tags: set<string>, desired: seq<string>, calls: seq<Call>, k: nat)
    requires Admissible(tags, desired, calls) && k < |calls|
    requires UpdateEffect(RunTags(tags, desired, calls[..k]), desired, calls[k]).ok
    ensures RunTags(tags, desired, calls) == SetOf(desired)
    decreases |calls|
  {
    var tags1 := UpdateEffect(tags, desired, calls[0]).tags;
    if k == 0 {
      assert calls[..0] == [];
      UpdateReachesGoal(tags, desired, calls[0]);
      RetriesStayBetween(tags1, desired, calls[1..]);
    } else {
      assert calls[..k][0] == calls[0] && calls[..k][1..] == calls[1..][..k - 1];
      RetryCompletes(tags1, desired, calls[1..], k - 1);
    }
  }
}
