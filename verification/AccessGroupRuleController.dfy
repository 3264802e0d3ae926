/**
  pkg/controller/iamaccessgroupsv2/accessgrouprule.go, with the ETag helpers of pkg/clients/ibmcloud.go: Observe
  records the ETag in an annotation, Update sends it back as If-Match.
 */
module AccessGroupRuleController {

  import opened Pointers
  import opened Int64
  import opened Ordering
  import opened AccessGroupRules

  const ETAG := "Etag"

  /** The ETag of a response; a missing header reads as the empty string. */
  function GetEtag(headers: Option<map<string, string>>): string {
    if headers.Some? && ETAG in headers.value then headers.value[ETAG] else ""
  }

  method GenerateSDKRuleConditions(cs: seq<Condition>) returns (o: seq<SDKCondition>)
    ensures o == ToSDKAll(cs)
    ensures |o| == |cs|
    ensures forall i :: 0 <= i < |o| ==>
      && o[i].claim == (if cs[i].claim == "" then None else Some(cs[i].claim))
      && o[i].operator == (if cs[i].operator == "" then None else Some(cs[i].operator))
      && o[i].value == (if cs[i].value == "" then None else Some(cs[i].value))
  {
    o := [];
    for i := 0 to |cs|
      invariant o == ToSDKAll(cs[..i])
    {
      o := o + [SDKCondition(ToPtrValue(cs[i].claim), ToPtrValue(cs[i].operator), ToPtrValue(cs[i].value))];
    }
    assert cs[..|cs|] == cs;
  }

  method GenerateCRRuleConditions(cs: seq<SDKCondition>) returns (o: seq<Condition>)
    ensures o == FromSDKAll(cs)
    ensures |o| == |cs|
    ensures forall i :: 0 <= i < |o| ==>
      && o[i].claim == FromPtrValue(cs[i].claim) && o[i].operator == FromPtrValue(cs[i].operator)
      && o[i].value == FromPtrValue(cs[i].value)
  {
    o := [];
    for i := 0 to |cs|
      invariant o == FromSDKAll(cs[..i])
    {
      o := o + [Condition(FromPtrValue(cs[i].claim), FromPtrValue(cs[i].operator), FromPtrValue(cs[i].value))];
    }
    assert cs[..|cs|] == cs;
  }

  /** The remote rules and the ETags they have had. */
  class RemoteRules {
    var rules: Rules
    ghost var issued: set<string>

    constructor ()
      ensures rules == map[] && issued == {}
    {
      rules, issued := map[], {};
    }

    method Write(id: string, version: Version)
      modifies this
      ensures rules == old(rules)[id := version] && issued == old(issued) + {version.etag}
    {
      rules := rules[id := version];
      issued := issued + {version.etag};
    }

    method ReplaceAccessGroupRule(r: Replace, reply: Reply, etag: string) returns (failed: bool)
      modifies this
      ensures !reply.Dropped? && Accepts(old(rules), r) ==>
                rules == old(rules)[r.ruleID.value := Version(etag, r.content)] && issued == old(issued) + {etag}
      ensures reply.Dropped? || !Accepts(old(rules), r) ==> rules == old(rules) && issued == old(issued)
      ensures !failed <==> reply.Applied? && Accepts(old(rules), r)
    {
      failed := true;
      if !reply.Dropped? && Accepts(rules, r) {
        Write(r.ruleID.value, Version(etag, r.content));
        failed := !reply.Applied?;
      }
    }

    method AddAccessGroupRule(content: Content, reply: Reply, id: string, etag: string) returns (failed: bool)
      modifies this
      ensures rules == if reply.Dropped? then old(rules) else old(rules)[id := Version(etag, content)]
      ensures issued == if reply.Dropped? then old(issued) else old(issued) + {etag}
      ensures failed <==> !reply.Applied?
    {
      failed := !reply.Applied?;
      if !reply.Dropped? {
        Write(id, Version(etag, content));
      }
    }
  }

  datatype Observation = Observation(resourceExists: bool, upToDate: bool)

  datatype End = Ok | Failed | Panic

  class AccessGroupRule {
    var name: string
    var realmName: string
    var expiration: int64
    var conditions: array<Condition>
    var annotations: map<string, string>
    var statusID: string
    var externalName: string
    ghost var read: Option<Seen>

    constructor (name: string, realmName: string, expiration: int64, conditions: array<Condition>)
      ensures Spec() == Params(name, realmName, expiration, conditions[..]) && this.conditions == conditions
      ensures annotations == map[] && statusID == "" && externalName == "" && read == None
    {
      this.name, this.realmName, this.expiration, this.conditions := name, realmName, expiration, conditions;
      annotations, statusID, externalName, read := map[], "", "", None;
    }

    ghost function Spec(): Params
      reads this, conditions
    {
      Params(name, realmName, expiration, conditions[..])
    }

    function GetEtagAnnotation(): string
      reads this
    {
      if ETAG in annotations then annotations[ETAG] else ""
    }

    method SetEtagAnnotation(etag: string)
      modifies this`annotations
      ensures annotations == old(annotations)[ETAG := etag]
      ensures GetEtagAnnotation() == etag
    {
      annotations := annotations[ETAG := etag];
    }

    ghost function StateWith(remote: RemoteRules): State
      reads this, conditions, remote
    {
      State(Spec(), externalName, statusID, GetEtagAnnotation(), remote.rules, remote.issued, read)
    }

    /** Both lists are sorted in place on copies; the spec's own list stays as it is. */
    method IsUpToDate(content: Content) returns (upToDate: bool, outcome: Outcome)
      ensures outcome.Returned? <==> content.expiration.Some?
      ensures outcome.Returned? ==> RuleMayReport(Spec(), ParamsOf(content), upToDate)
    {
      if content.expiration.None? {
        return false, Panicked;
      }
      var actual := GenerateCRRuleConditions(content.conditions);
      var same := SortAndCompare(conditions, actual, ByClaim);
      upToDate := same && name == FromPtrValue(content.name) && realmName == FromPtrValue(content.realmName)
                  && expiration == content.expiration.value;
      outcome := Returned;
    }

    /** A rule that is not found leaves annotation and status as they were. */
    method Observe(remote: RemoteRules, answered: bool, notFound: bool) returns (o: Observation, end: End)
      modifies this`annotations, this`statusID, this`read
      ensures StateWith(remote) == Next(old(StateWith(remote)), Action.Observe(answered))
      ensures annotations - {ETAG} == old(annotations) - {ETAG}
      ensures o.resourceExists <==> end == Ok && answered && Visible(StateWith(remote))
      ensures o.resourceExists ==> remote.rules[externalName].content.expiration.Some?
      ensures o.resourceExists ==> RuleMayReport(Spec(), ParamsOf(remote.rules[externalName].content), o.upToDate)
      ensures end == Panic <==>
                answered && Visible(StateWith(remote)) && remote.rules[externalName].content.expiration.None?
      ensures end == Failed <==> externalName != "" && !answered && !notFound
    {
      o, end := Observation(false, false), Ok;
      if externalName == "" {
        return;
      }
      if !answered {
        return o, if notFound then Ok else Failed;
      }
      if externalName !in remote.rules {
        return;
      }
      var instance := remote.rules[externalName];
      SetEtagAnnotation(GetEtag(Some(map[ETAG := instance.etag])));
      statusID := externalName;
      read := Some(Seen(externalName, instance));
      var upToDate, test := IsUpToDate(instance.content);
      if test.Panicked? {
        return o, Panic;
      }
      return Observation(true, upToDate), Ok;
    }

    method GenerateContent() returns (c: Content)
      ensures c == ContentOf(Spec())
    {
      var cs := GenerateSDKRuleConditions(conditions[..]);
      c := Content(ToPtrValue(name), ToPtrValue(realmName), Some(expiration), cs);
    }

    /** The error filter may turn a failed call into a reported success; the external name is not set then. */
    method Create(remote: RemoteRules, reply: Reply, benign: bool, id: string, etag: string) returns (failed: bool)
      modifies this`externalName, remote
      ensures StateWith(remote) == Next(old(StateWith(remote)), Action.Create(reply, id, etag))
      ensures failed <==> !reply.Applied? && !benign
    {
      var content := GenerateContent();
      var err := remote.AddAccessGroupRule(content, reply, id, etag);
      if err {
        return !benign;
      }
      externalName := id;
      return false;
    }

    method Update(remote: RemoteRules, reply: Reply, etag: string) returns (failed: bool)
      modifies remote
      ensures StateWith(remote) == Next(old(StateWith(remote)), Action.Update(reply, etag))
      ensures !failed <==> reply.Applied? && TakesEffect(old(StateWith(remote)), Action.Update(reply, etag))
    {
      var eTag := GetEtagAnnotation();
      var content := GenerateContent();
      failed := remote.ReplaceAccessGroupRule(Replace(ToPtrValue(statusID), ToPtrValue(eTag), content), reply, etag);
    }
  }
}
