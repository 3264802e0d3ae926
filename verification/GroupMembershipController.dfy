/**
  pkg/controller/iamaccessgroupsv2/groupmembership.go: the four reconciler calls on a managed resource and a
  remote group, each proved to be one action of the state machine.
 */
module GroupMembershipController {

  import opened Pointers
  import opened Ordering
  import opened GroupMembershipClient
  import opened GroupMembershipRuns

  /** An SDK error; `benign` when the filter the caller applies to it drops it. */
  datatype CallError = NoError | Failed(benign: bool)

  /** A detailed response, reduced to whether its body lists errors of single members. */
  datatype Response = Response(memberErrors: bool, benign: bool)

  function ExtractErrorMessage(resp: Response, err: CallError): CallError {
    if resp.memberErrors && err.NoError? then Failed(resp.benign) else err
  }

  /** The remote side. How a call ends is the caller's `reply` parameter. */
  class AccessGroup {
    var members: Group

    constructor (members: Group)
      ensures this.members == members
    {
      this.members := members;
    }

    method AddMembers(items: seq<SDKMember>, reply: Reply) returns (resp: Response, err: CallError)
      modifies this
      ensures members == Add(old(members), items, reply)
      ensures ExtractErrorMessage(resp, err) ==
              if AddSucceeds(items, reply) then NoError else Failed(Sendable(items) && reply.benign)
    {
      resp, err := Response(false, false), NoError;
      if !Sendable(items) {
        err := Failed(false);
        return;
      }
      for i := 0 to |items|
        invariant members == AddReached(old(members), items[..i], reply)
      {
        assert items[..i + 1][..i] == items[..i];
        var m := FromSDK(items[i]);
        if reply.Reaches(m.iamID) {
          members := members[m.iamID := m.memberType];
        }
      }
      assert items[..|items|] == items;
      match reply
      case Done =>
      case Refused(_, benign) => err := Failed(benign);
      case MemberErrors(_, benign) => resp := Response(true, benign);
    }

    method RemoveMembers(ids: seq<string>, reply: Reply) returns (resp: Response, err: CallError)
      modifies this
      ensures members == Remove(old(members), ids, reply)
      ensures ExtractErrorMessage(resp, err).NoError? <==> reply.Done?
      ensures err == if reply.Refused? then Failed(reply.benign) else NoError
    {
      resp, err := Response(false, false), NoError;
      members := Remove(members, ids, reply);
      match reply
      case Done =>
      case Refused(_, benign) => err := Failed(benign);
      case MemberErrors(_, benign) => resp := Response(true, benign);
    }
  }

  datatype Observation = Observation(resourceExists: bool, upToDate: bool)

  class GroupMembership {
    const accessGroupID: Option<string>
    var members: array<Member>
    var status: seq<Member>
    var externalName: string

    constructor (accessGroupID: Option<string>, members: array<Member>)
      ensures this.accessGroupID == accessGroupID && this.members == members
      ensures status == [] && externalName == ""
    {
      this.accessGroupID := accessGroupID;
      this.members := members;
      status, externalName := [], "";
    }

    ghost function StateWith(remote: AccessGroup): State
      reads this, members, remote
    {
      State(members[..], FromPtrValue(accessGroupID), status, externalName != "", remote.members)
    }

    /** A listing that answers lists the group; nothing else is asked of the environment. */
    method Observe(remote: AccessGroup, read: Read) returns (o: Observation, failed: bool)
      requires Enabled(StateWith(remote), Action.Observe(read))
      modifies this`status
      ensures StateWith(remote) == Next(old(StateWith(remote)), Action.Observe(read))
      ensures failed <==> externalName != "" && read.ReadError?
      ensures o.resourceExists <==> externalName != "" && read.Listed? && read.members != []
      ensures o.resourceExists ==> MayReport(members[..], FromSDKAll(read.members), ByID, o.upToDate)
    {
      o, failed := Observation(false, false), false;
      if externalName == "" {
        return;
      }
      match read
      case NotFound =>
      case ReadError => failed := true;
      case Listed(list) =>
        if |list| == 0 {
          return;
        }
        status := GenerateCRMembers(Some(list));
        var upToDate := IsUpToDate(members, Some(list));
        o := Observation(true, upToDate);
    }

    /**
      The external name is recorded only by a call that really succeeded; a benign error reports success. A missing
      group id is passed on, and how that call ends is the reply's business; its success would record no name.
     */
    method Create(remote: AccessGroup, reply: Reply) returns (failed: bool)
      modifies this`externalName, remote
      ensures StateWith(remote) == Next(old(StateWith(remote)), Action.Create(reply))
      ensures externalName == if AddSucceeds(ToSDKAll(members[..]), reply) then FromPtrValue(accessGroupID) else old(externalName)
      ensures failed <==> var items := ToSDKAll(members[..]);
                          !AddSucceeds(items, reply) && !(Sendable(items) && reply.benign)
    {
      var items := GenerateSDKAddGroupMembersRequestMembersItems(members[..]);
      var resp, err := remote.AddMembers(items, reply);
      var e := ExtractErrorMessage(resp, err);
      if e.Failed? {
        return !e.benign;
      }
      externalName := FromPtrValue(accessGroupID);
      failed := false;
    }

    /** Additions first; removals are sent only after the additions succeeded. */
    method Update(remote: AccessGroup, add: Reply, remove: Reply) returns (failed: bool)
      modifies remote
      ensures StateWith(remote) == Next(old(StateWith(remote)), Action.Update(add, remove))
      ensures failed <==> !UpdateSucceeds(old(StateWith(remote)), add, remove)
    {
      ghost var s := StateWith(remote);
      var toAdd, toRemove := MembersDiff(members[..], status);
      assert toAdd == ToAdd(s) && toRemove == ToRemove(s);
      if |toAdd| > 0 {
        var resp, err := remote.AddMembers(toAdd, add);
        var e := ExtractErrorMessage(resp, err);
        if e.Failed? {
          return true;
        }
      }
      if |toRemove| > 0 {
        var resp, err := remote.RemoveMembers(toRemove, remove);
        var e := ExtractErrorMessage(resp, err);
        if e.Failed? {
          return true;
        }
      }
      failed := false;
    }

    /** Errors of single members are not looked at here, unlike in Update. */
    method Delete(remote: AccessGroup, reply: Reply) returns (failed: bool)
      modifies remote
      ensures StateWith(remote) == Next(old(StateWith(remote)), Action.Delete(reply))
      ensures failed <==> reply.Refused? && !reply.benign
    {
      var ids := GenerateSDKRemoveGroupMembersRequestMembersItems(members[..]);
      var _, err := remote.RemoveMembers(ids, reply);
      failed := err.Failed? && !err.benign;
    }
  }
}
