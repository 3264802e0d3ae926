/** pkg/clients/groupmembership: conversions, the up-to-date test and the member diff. */
module GroupMembershipClient {

  import opened Pointers
  import opened Lists
  import opened Ordering

  /** A member as written in the spec and in the status. */
  datatype Member = Member(iamID: string, memberType: string)

  /** A member as it travels in a request or a response. */
  datatype SDKMember = SDKMember(iamID: Option<string>, memberType: Option<string>)

  const ByID: Member -> string := (m: Member) => m.iamID

  function ToSDK(m: Member): SDKMember {
    SDKMember(ToPtrValue(m.iamID), ToPtrValue(m.memberType))
  }

  function FromSDK(m: SDKMember): Member {
    Member(FromPtrValue(m.iamID), FromPtrValue(m.memberType))
  }

  function ToSDKAll(ms: seq<Member>): (r: seq<SDKMember>)
    ensures |r| == |ms|
  {
    seq(|ms|, i requires 0 <= i < |ms| => ToSDK(ms[i]))
  }

  function FromSDKAll(ms: seq<SDKMember>): (r: seq<Member>)
    ensures |r| == |ms|
  {
    seq(|ms|, i requires 0 <= i < |ms| => FromSDK(ms[i]))
  }

  function IDs(ms: seq<Member>): (r: seq<string>)
    ensures |r| == |ms|
  {
    seq(|ms|, i requires 0 <= i < |ms| => ms[i].iamID)
  }

  /** Nothing is lost on the way to a request and back, empty strings included. */
  lemma SDKRoundTrip(ms: seq<Member>)
    ensures FromSDKAll(ToSDKAll(ms)) == ms
  {
    assert forall i :: 0 <= i < |ms| ==> FromSDK(ToSDK(ms[i])) == ms[i];
  }

  method GenerateSDKAddGroupMembersRequestMembersItems(members: seq<Member>) returns (o: seq<SDKMember>)
    ensures o == ToSDKAll(members)
    ensures |o| == |members|
    ensures forall i :: 0 <= i < |o| ==>
      && o[i].iamID == (if members[i].iamID == "" then None else Some(members[i].iamID))
      && o[i].memberType == (if members[i].memberType == "" then None else Some(members[i].memberType))
  {
    o := [];
    for i := 0 to |members|
      invariant o == ToSDKAll(members[..i])
    {
      o := o + [SDKMember(ToPtrValue(members[i].iamID), ToPtrValue(members[i].memberType))];
    }
    assert members[..|members|] == members;
  }

  method GenerateSDKRemoveGroupMembersRequestMembersItems(members: seq<Member>) returns (o: seq<string>)
    ensures o == IDs(members)
    ensures |o| == |members| && forall i :: 0 <= i < |o| ==> o[i] == members[i].iamID
  {
    o := [];
    for i := 0 to |members|
      invariant o == IDs(members[..i])
    {
      o := o + [members[i].iamID];
    }
    assert members[..|members|] == members;
  }

  method GenerateCRMembers(list: Option<seq<SDKMember>>) returns (o: seq<Member>)
    ensures o == if list.None? then [] else FromSDKAll(list.value)
    ensures list.None? ==> o == []
    ensures list.Some? ==>
      && |o| == |list.value|
      && forall i :: 0 <= i < |o| ==>
           && o[i].iamID == FromPtrValue(list.value[i].iamID) && o[i].memberType == FromPtrValue(list.value[i].memberType)
  {
    o := [];
    if list.None? {
      return;
    }
    var members := list.value;
    for i := 0 to |members|
      invariant o == FromSDKAll(members[..i])
    {
      o := o + [Member(FromPtrValue(members[i].iamID), FromPtrValue(members[i].memberType))];
    }
    assert members[..|members|] == members;
  }

  /** The id set that one of the two maps of `MembersDiff` holds after its loop. */
  method CollectIDs(ms: seq<Member>) returns (m: map<string, bool>)
    ensures m.Keys == Keys(ms, ByID)
  {
    m := map[];
    for i := 0 to |ms|
      invariant m.Keys == Keys(ms[..i], ByID)
    {
      m := m[ms[i].iamID := true];
      KeysStep(ms, i);
    }
    assert ms[..|ms|] == ms;
  }

  lemma KeysStep(ms: seq<Member>, i: nat)
    requires i < |ms|
    ensures Keys(ms[..i + 1], ByID) == Keys(ms[..i], ByID) + {ms[i].iamID}
  {
    assert ms[..i + 1] == ms[..i] + [ms[i]];
    KeyOf(ms[..i + 1], ByID, ms[i]);
    forall k | k in Keys(ms[..i], ByID) ensures k in Keys(ms[..i + 1], ByID) {
      var x :| x in ms[..i] && ByID(x) == k;
      KeyOf(ms[..i + 1], ByID, x);
    }
    forall k | k in Keys(ms[..i + 1], ByID) ensures k in Keys(ms[..i], ByID) + {ms[i].iamID} {
      var x :| x in ms[..i + 1] && ByID(x) == k;
      if x in ms[..i] {
        KeyOf(ms[..i], ByID, x);
      }
    }
  }

  /** What must be added and removed: both lists keep order and multiplicity, and only ids are compared. */
  method MembersDiff(desired: seq<Member>, actual: seq<Member>)
    returns (toAdd: seq<SDKMember>, toRemove: seq<string>)
    ensures toAdd == ToSDKAll(Without(desired, ByID, Keys(actual, ByID)))
    ensures toRemove == IDs(Without(actual, ByID, Keys(desired, ByID)))
  {
    toAdd, toRemove := [], [];
    var dMap := CollectIDs(desired);
    var aMap := CollectIDs(actual);
    for i := 0 to |desired|
      invariant toAdd == ToSDKAll(Without(desired[..i], ByID, aMap.Keys))
    {
      WithoutStep(desired, ByID, aMap.Keys, i);
      if desired[i].iamID !in aMap {
        toAdd := toAdd + [SDKMember(ToPtrValue(desired[i].iamID), ToPtrValue(desired[i].memberType))];
      }
    }
    for i := 0 to |actual|
      invariant toRemove == IDs(Without(actual[..i], ByID, dMap.Keys))
    {
      WithoutStep(actual, ByID, dMap.Keys, i);
      if actual[i].iamID !in dMap {
        toRemove := toRemove + [actual[i].iamID];
      }
    }
    assert desired[..|desired|] == desired && actual[..|actual|] == actual;
  }

  /** Sorts a deep copy: the caller's list is an array that this method has no right to modify. */
  method IsUpToDate(desired: array<Member>, observed: Option<seq<SDKMember>>) returns (upToDate: bool)
    ensures MayReport(desired[..], if observed.None? then [] else FromSDKAll(observed.value), ByID, upToDate)
  {
    var actual := GenerateCRMembers(observed);
    upToDate := SortAndCompare(desired, actual, ByID);
  }

  ghost predicate TypesAgree(desired: seq<Member>, actual: seq<Member>) {
    forall d, a :: d in desired && a in actual && d.iamID == a.iamID ==> d.memberType == a.memberType
  }

  /**
    The test and the diff agree: with distinct ids on each side the test succeeds exactly when both lists of
    the diff are empty and the types agree on every shared id, which the diff does not look at.
   */
  lemma TestAgreesWithDiff(desired: seq<Member>, actual: seq<Member>, upToDate: bool)
    requires DistinctKeys(desired, ByID) && DistinctKeys(actual, ByID)
    requires MayReport(desired, actual, ByID, upToDate)
    ensures upToDate <==>
            && ToSDKAll(Without(desired, ByID, Keys(actual, ByID))) == []
            && IDs(Without(actual, ByID, Keys(desired, ByID))) == []
            && TypesAgree(desired, actual)
  {
    DistinctKeysDetermine(desired, ByID);
    ReportExact(desired, actual, ByID, upToDate);
    DistinctPermutation(desired, actual, ByID);
    WithoutEmpty(desired, ByID, Keys(actual, ByID));
    WithoutEmpty(actual, ByID, Keys(desired, ByID));
    SameElements(desired, actual);
  }

  lemma SameElements(desired: seq<Member>, actual: seq<Member>)
    requires DistinctKeys(desired, ByID) && DistinctKeys(actual, ByID)
    ensures (forall x :: x in desired <==> x in actual)
       <==> Keys(desired, ByID) == Keys(actual, ByID) && TypesAgree(desired, actual)
  {
    if forall x :: x in desired <==> x in actual {
      assert Keys(desired, ByID) == Keys(actual, ByID);
      forall d, a | d in desired && a in actual && d.iamID == a.iamID
        ensures d == a
      {
        var i :| 0 <= i < |desired| && desired[i] == d;
        var j :| 0 <= j < |desired| && desired[j] == a;
        assert ByID(desired[i]) == ByID(desired[j]);
      }
    } else if Keys(desired, ByID) == Keys(actual, ByID) && TypesAgree(desired, actual) {
      forall x ensures x in desired <==> x in actual {
        SharedElement(desired, actual, x);
        SharedElement(actual, desired, x);
      }
      assert false;
    }
  }

  lemma SharedElement(xs: seq<Member>, ys: seq<Member>, x: Member)
    requires Keys(xs, ByID) == Keys(ys, ByID)
    requires TypesAgree(xs, ys) || TypesAgree(ys, xs)
    ensures x in xs ==> x in ys
  {
    if x in xs {
      KeyOf(xs, ByID, x);
      var y :| y in ys && ByID(y) == x.iamID;
      assert y == x;
    }
  }
}
