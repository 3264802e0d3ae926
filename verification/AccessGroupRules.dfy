/**
  pkg/clients/accessgrouprule and its controller. A replace carries the ETag that the last Observe recorded; the
  remote honours If-Match as section 13.1.1 of RFC 9110 defines it, while third parties write at any time.
 */
module AccessGroupRules {

  import opened Pointers
  import opened Int64
  import opened Ordering

  datatype Condition = Condition(claim: string, operator: string, value: string)

  datatype SDKCondition = SDKCondition(claim: Option<string>, operator: Option<string>, value: Option<string>)

  const ByClaim: Condition -> string := (c: Condition) => c.claim

  /** The spec. */
  datatype Params = Params(name: string, realmName: string, expiration: int64, conditions: seq<Condition>)

  /** What a rule says, as the remote holds it. */
  datatype Content = Content(
    name: Option<string>, realmName: Option<string>, expiration: Option<int64>, conditions: seq<SDKCondition>)

  function ToSDK(c: Condition): SDKCondition {
    SDKCondition(ToPtrValue(c.claim), ToPtrValue(c.operator), ToPtrValue(c.value))
  }

  function FromSDK(c: SDKCondition): Condition {
    Condition(FromPtrValue(c.claim), FromPtrValue(c.operator), FromPtrValue(c.value))
  }

  function ToSDKAll(cs: seq<Condition>): seq<SDKCondition> {
    seq(|cs|, i requires 0 <= i < |cs| => ToSDK(cs[i]))
  }

  function FromSDKAll(cs: seq<SDKCondition>): seq<Condition> {
    seq(|cs|, i requires 0 <= i < |cs| => FromSDK(cs[i]))
  }

  function ContentOf(p: Params): Content {
    Content(ToPtrValue(p.name), ToPtrValue(p.realmName), Some(p.expiration), ToSDKAll(p.conditions))
  }

  /** Reading back a content gives a spec; the expiration is dereferenced. */
  function ParamsOf(c: Content): Params
    requires c.expiration.Some?
  {
    Params(FromPtrValue(c.name), FromPtrValue(c.realmName), c.expiration.value, FromSDKAll(c.conditions))
  }

  /** What a spec writes reads back as the same spec. */
  lemma ContentRoundTrip(p: Params)
    ensures ParamsOf(ContentOf(p)) == p
  {
    assert forall i :: 0 <= i < |p.conditions| ==> FromSDK(ToSDK(p.conditions[i])) == p.conditions[i];
  }

  /** Every field of the spec goes to the field of the same name, and back. */
  lemma FieldsExact(p: Params, c: Content)
    ensures var r := ContentOf(p);
      && FromPtrValue(r.name) == p.name && FromPtrValue(r.realmName) == p.realmName && r.expiration == Some(p.expiration)
      && |r.conditions| == |p.conditions|
      && forall i :: 0 <= i < |p.conditions| ==>
           && FromPtrValue(r.conditions[i].claim) == p.conditions[i].claim
           && FromPtrValue(r.conditions[i].operator) == p.conditions[i].operator
           && FromPtrValue(r.conditions[i].value) == p.conditions[i].value
    ensures c.expiration.Some? ==>
      var q := ParamsOf(c);
      && q.name == FromPtrValue(c.name) && q.realmName == FromPtrValue(c.realmName) && Some(q.expiration) == c.expiration
      && |q.conditions| == |c.conditions|
      && forall i :: 0 <= i < |c.conditions| ==>
           && q.conditions[i].claim == FromPtrValue(c.conditions[i].claim)
           && q.conditions[i].operator == FromPtrValue(c.conditions[i].operator)
           && q.conditions[i].value == FromPtrValue(c.conditions[i].value)
  {
  }

  // ---------------------------------------------------------------- the up-to-date test

  ghost predicate SameHeader(p: Params, q: Params) {
    p.name == q.name && p.realmName == q.realmName && p.expiration == q.expiration
  }

  /** A possible answer of the test, over the orders that the two unstable sorts may leave. */
  ghost predicate RuleMayReport(p: Params, q: Params, answer: bool) {
    if SameHeader(p, q) then MayReport(p.conditions, q.conditions, ByClaim, answer) else !answer
  }

  /**
    Which answers are possible, for every spec and rule: yes exactly when name, realm, expiration and the multiset
    of conditions agree; no exactly when one of the four differs or two different conditions share a claim.
   */
  lemma RuleTestExact(p: Params, q: Params)
    ensures RuleMayReport(p, q, true) <==>
              && p.name == q.name && p.realmName == q.realmName && p.expiration == q.expiration
              && multiset(p.conditions) == multiset(q.conditions)
    ensures RuleMayReport(p, q, false) <==>
              || p.name != q.name || p.realmName != q.realmName || p.expiration != q.expiration
              || multiset(p.conditions) != multiset(q.conditions)
              || exists i, j :: 0 <= i < |p.conditions| && 0 <= j < |p.conditions|
                   && p.conditions[i].claim == p.conditions[j].claim && p.conditions[i] != p.conditions[j]
  {
    ReportPossible(p.conditions, q.conditions, ByClaim);
    ClaimsDetermine(p.conditions);
  }

  lemma ClaimsDetermine(cs: seq<Condition>)
    ensures KeyDetermines(cs, ByClaim) <==>
              forall i, j :: 0 <= i < |cs| && 0 <= j < |cs| && cs[i].claim == cs[j].claim ==> cs[i] == cs[j]
  {
    if forall i, j :: 0 <= i < |cs| && 0 <= j < |cs| && cs[i].claim == cs[j].claim ==> cs[i] == cs[j] {
      forall i, j | 0 <= i < |cs| && 0 <= j < |cs| && ByClaim(cs[i]) == ByClaim(cs[j]) ensures cs[i] == cs[j] {
        assert cs[i].claim == cs[j].claim;
      }
    }
    if KeyDetermines(cs, ByClaim) {
      forall i, j | 0 <= i < |cs| && 0 <= j < |cs| && cs[i].claim == cs[j].claim ensures cs[i] == cs[j] {
        assert ByClaim(cs[i]) == ByClaim(cs[j]);
      }
    }
  }

  // ---------------------------------------------------------------- the state machine

  /** One state of a rule at the remote. */
  datatype Version = Version(etag: string, content: Content)

  /** The rules of the account, by id. */
  type Rules = map<string, Version>

  /** A rule as it was read. */
  datatype Seen = Seen(id: string, version: Version)

  /** The field values a replace request carries. */
  datatype Replace = Replace(ruleID: Option<string>, ifMatch: Option<string>, content: Content)

  /** Section 13.1.1 of RFC 9110, for a request that carries no field, an asterisk, or one entity tag. */
  predicate Matches(ifMatch: Option<string>, current: string) {
    ifMatch.None? || ifMatch.value == "*" || ifMatch.value == current
  }

  predicate Accepts(rules: Rules, r: Replace) {
    r.ruleID.Some? && r.ruleID.value in rules && Matches(r.ifMatch, rules[r.ruleID.value].etag)
  }

  /**
    The managed resource, the remote rules, all ETags issued so far, and (for the statements below) the rule as
    the last successful Observe read it.
   */
  datatype State = State(
    spec: Params, externalName: string, statusID: string, etag: string,
    rules: Rules, issued: set<string>, read: Option<Seen>)

  datatype Reply = Applied | Dropped | AppliedWithError

  datatype Action =
    | Observe(answered: bool)
    | Create(reply: Reply, id: string, etag: string)
    | Update(reply: Reply, etag: string)
    | EditSpec(spec: Params)
    | ForeignWrite(id: string, version: Version)
    | ForeignRemove(id: string)

  function RequestOf(s: State): Replace {
    Replace(ToPtrValue(s.statusID), ToPtrValue(s.etag), ContentOf(s.spec))
  }

  /** The observed rule is the one the external name points to. */
  predicate Visible(s: State) {
    s.externalName != "" && s.externalName in s.rules
  }

  predicate TakesEffect(s: State, a: Action) {
    a.Update? && !a.reply.Dropped? && Accepts(s.rules, RequestOf(s))
  }

  function Written(s: State, id: string, version: Version): State {
    s.(rules := s.rules[id := version], issued := s.issued + {version.etag})
  }

  function Next(s: State, a: Action): State {
    match a
    case Observe(answered) =>
      if answered && Visible(s) then
        var version := s.rules[s.externalName];
        s.(statusID := s.externalName, etag := version.etag, read := Some(Seen(s.externalName, version)))
      else s
    case Create(reply, id, etag) =>
      if reply.Dropped? then s
      else
        var t := Written(s, id, Version(etag, ContentOf(s.spec)));
        if reply.Applied? then t.(externalName := id) else t
    case Update(_, etag) =>
      if TakesEffect(s, a) then Written(s, s.statusID, Version(etag, ContentOf(s.spec))) else s
    case EditSpec(spec) => s.(spec := spec)
    case ForeignWrite(id, version) => Written(s, id, version)
    case ForeignRemove(id) => s.(rules := s.rules - {id})
  }

  /** An entity tag is never empty and never the asterisk. */
  predicate IsTag(etag: string) {
    etag != "" && etag != "*"
  }

  predicate IsFresh(s: State, etag: string) {
    IsTag(etag) && etag !in s.issued
  }

  /** Every write gives the rule an ETag that was never issued before; a created rule gets an unused id. */
  predicate Enabled(s: State, a: Action) {
    match a
    case Observe(_) => true
    case Create(_, id, etag) => id != "" && id !in s.rules && IsFresh(s, etag)
    case Update(_, etag) => IsFresh(s, etag)
    case EditSpec(_) => true
    case ForeignWrite(id, version) => id != "" && IsFresh(s, version.etag)
    case ForeignRemove(_) => true
  }

  /** The rule that was read is still there, in the state in which it was read. */
  predicate Current(s: State) {
    s.read.Some? && s.read.value.id in s.rules && s.rules[s.read.value.id] == s.read.value.version
  }

  /** What was recorded belongs to what was read, and an ETag identifies one state of the rule. */
  predicate Inv(s: State) {
    && (forall e :: e in s.issued ==> IsTag(e))
    && (forall id :: id in s.rules ==> s.rules[id].etag in s.issued && id != "")
    && (s.read.None? ==> s.statusID == "")
    && (s.read.Some? ==>
          && s.statusID == s.read.value.id && s.etag == s.read.value.version.etag && s.etag in s.issued
          && (s.statusID in s.rules && s.rules[s.statusID].etag == s.etag ==> Current(s)))
  }

  function Run(s: State, actions: seq<Action>): State
    decreases |actions|
  {
    if actions == [] then s else Run(Next(s, actions[0]), actions[1..])
  }

  predicate Admissible(s: State, actions: seq<Action>)
    decreases |actions|
  {
    actions != [] ==> Enabled(s, actions[0]) && Admissible(Next(s, actions[0]), actions[1..])
  }

  lemma {:induction false} RunKeepsInv(s: State, actions: seq<Action>)
    requires Inv(s) && Admissible(s, actions)
    ensures Inv(Run(s, actions))
    decreases |actions|
  {
    if actions != [] {
      StepKeepsInv(s, actions[0]);
      RunKeepsInv(Next(s, actions[0]), actions[1..]);
    }
  }

  lemma StepKeepsInv(s: State, a: Action)
    requires Inv(s) && Enabled(s, a)
    ensures Inv(Next(s, a))
  {
  }

  /** A create that arrives adds one rule as the spec says, and only an undisturbed one makes it the observed rule. */
  lemma CreateExact(s: State, reply: Reply, id: string, etag: string)
    requires Enabled(s, Create(reply, id, etag))
    ensures var t := Next(s, Create(reply, id, etag));
      && t.rules == (if reply.Dropped? then s.rules else s.rules[id := Version(etag, ContentOf(s.spec))])
      && t.externalName == (if reply.Applied? then id else s.externalName)
      && (reply.Applied? ==> Visible(t))
      && t == s.(rules := t.rules, issued := t.issued, externalName := t.externalName)
  {
  }

  /** An answered Observe of an existing rule records its id, its ETag and its state; any other records nothing. */
  lemma ObserveExact(s: State, answered: bool)
    ensures var t := Next(s, Observe(answered));
      && (answered && s.externalName != "" && s.externalName in s.rules ==>
            && t.statusID == s.externalName && t.etag == s.rules[s.externalName].etag && Current(t)
            && t == s.(statusID := t.statusID, etag := t.etag, read := t.read))
      && (!(answered && s.externalName != "" && s.externalName in s.rules) ==> t == s)
  {
  }

  /**
    A replace that arrives takes effect exactly when the rule that was read is still there as it was read, and
    then changes only that rule, to what the spec says.
   */
  lemma ReplaceExact(s: State, reply: Reply, etag: string)
    requires Inv(s)
    ensures TakesEffect(s, Update(reply, etag)) <==> !reply.Dropped? && Current(s)
    ensures Next(s, Update(reply, etag)).rules ==
            if !reply.Dropped? && Current(s) then s.rules[s.read.value.id := Version(etag, ContentOf(s.spec))] else s.rules
    ensures var t := Next(s, Update(reply, etag)); t == s.(rules := t.rules, issued := t.issued)
  {
  }

  /**
    No lost update: in every interleaving of the controller's calls, spec edits and third-party writes, a replace
    that takes effect overwrites exactly the rule that the last successful Observe read. Before any Observe the
    request names no rule, so its missing If-Match cannot let it through.
   */
  lemma {:induction false} NoLostUpdate(s: State, actions: seq<Action>, k: nat)
    requires Inv(s) && Admissible(s, actions) && k < |actions|
    requires TakesEffect(Run(s, actions[..k]), actions[k])
    ensures var t := Run(s, actions[..k]);
      Current(t) && Next(t, actions[k]).rules == t.rules[t.read.value.id := Version(actions[k].etag, ContentOf(t.spec))]
    decreases k
  {
    if k > 0 {
      StepKeepsInv(s, actions[0]);
      assert actions[..k][0] == actions[0] && actions[..k][1..] == actions[1..][..k - 1];
      NoLostUpdate(Next(s, actions[0]), actions[1..], k - 1);
    } else {
      assert actions[..0] == [];
    }
  }

  /** A third-party write to the observed rule makes the next replace fail, whatever happens in between. */
  lemma {:induction false} InterferenceIsDetected(s: State, version: Version, between: seq<Action>, a: Action)
    requires Inv(s) && s.read.Some?
    requires Admissible(s, [ForeignWrite(s.read.value.id, version)] + between)
    requires a.Update? && forall i :: 0 <= i < |between| ==> !between[i].Observe?
    ensures var t := Run(s, [ForeignWrite(s.read.value.id, version)] + between);
            !TakesEffect(t, a) && Next(t, a) == t && t.read == s.read
  {
    var write := ForeignWrite(s.read.value.id, version);
    assert ([write] + between)[1..] == between;
    StepKeepsInv(s, write);
    StaleStaysStale(Next(s, write), between);
  }

  ghost predicate Stale(s: State) {
    Inv(s) && s.read.Some? && !Current(s)
  }

  lemma {:induction false} StaleStaysStale(s: State, actions: seq<Action>)
    requires Stale(s) && Admissible(s, actions)
    requires forall i :: 0 <= i < |actions| ==> !actions[i].Observe?
    ensures Stale(Run(s, actions)) && Run(s, actions).read == s.read
    decreases |actions|
  {
    if actions != [] {
      StepKeepsInv(s, actions[0]);
      StaleStaysStale(Next(s, actions[0]), actions[1..]);
    }
  }

  /**
    With no interference, Observe, Update, Observe converges: the replace takes effect and the test then answers
    yes, except that repeated claims with different conditions let an unlucky sort answer no.
   */
  lemma UninterruptedConverges(s: State, etag: string, answer: bool)
    requires Inv(s) && Visible(s) && Enabled(Next(s, Observe(true)), Update(Applied, etag))
    ensures var s1 := Next(s, Observe(true)); var s2 := Next(s1, Update(Applied, etag));
      && TakesEffect(s1, Update(Applied, etag))
      && Visible(s2) && s2.rules[s2.externalName].content.expiration.Some?
      && var q := ParamsOf(s2.rules[s2.externalName].content);
         && (RuleMayReport(s.spec, q, answer) && KeyDetermines(s.spec.conditions, ByClaim) ==> answer)
         && RuleMayReport(s.spec, q, true)
         && (RuleMayReport(s.spec, q, false) <==> !KeyDetermines(s.spec.conditions, ByClaim))
  {
    ContentRoundTrip(s.spec);
    ReportPossible(s.spec.conditions, s.spec.conditions, ByClaim);
  }
}
