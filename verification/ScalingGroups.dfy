/**
  pkg/clients/scalinggroup and its controller. The remote speaks totals over all members, the spec speaks
  amounts per member: reading divides, writing multiplies, and the member count may change in the same request.
 */
module ScalingGroups {

  import opened Pointers
  import opened Int64

  /** A resource in a response; its amount may be missing. */
  datatype Allocation = Allocation(amount: Option<int64>)

  datatype SDKGroup = SDKGroup(
    id: Option<string>, count: Option<int64>, members: Option<Allocation>,
    cpu: Option<Allocation>, disk: Option<Allocation>, memory: Option<Allocation>)
  {
    predicate Counted() {
      members.Some? && members.value.amount.Some?
    }

    function N(): int64
      requires Counted()
    {
      members.value.amount.value
    }
  }

  /** The spec: a deployment id and amounts per member. */
  datatype Params = Params(
    id: Option<string>, members: Option<int64>,
    cpu: Option<int64>, disk: Option<int64>, memory: Option<int64>)

  /** A total and the share of one member, as recorded in the status. */
  datatype Split = Split(total: int64, perMember: int64)

  datatype StatusGroup = StatusGroup(
    id: string, count: int64, members: int64, cpu: Split, disk: Split, memory: Split)

  /** The body of a resize request: totals, over the current number of members. */
  datatype Request = Request(
    members: Option<int64>, cpu: Option<int64>, disk: Option<int64>, memory: Option<int64>)

  // ---------------------------------------------------------------- per-member shares

  /** Dividing does not panic: the amount is there and the divisor is not zero. */
  predicate Divisible(r: Option<Allocation>, n: int64) {
    r.Some? && r.value.amount.Some? && n != 0
  }

  function Share(r: Option<Allocation>, n: int64): int64
    requires Divisible(r, n)
  {
    Div(r.value.amount.value, n)
  }

  /** Late initialization of one field divides only when the field is unset and the resource is reported. */
  predicate FieldSafe(field: Option<int64>, r: Option<Allocation>, n: int64) {
    field.None? && r.Some? ==> Divisible(r, n)
  }

  function LateField(field: Option<int64>, r: Option<Allocation>, n: int64): Option<int64>
    requires FieldSafe(field, r, n)
  {
    if field.None? && r.Some? then Some(Share(r, n)) else field
  }

  /** Only the first group counts, and only when it reports a member count. */
  predicate HasCount(groups: seq<SDKGroup>) {
    groups != [] && groups[0].Counted()
  }

  predicate LateSafe(p: Params, groups: seq<SDKGroup>) {
    HasCount(groups) ==>
      var g := groups[0];
      FieldSafe(p.cpu, g.cpu, g.N()) && FieldSafe(p.disk, g.disk, g.N()) && FieldSafe(p.memory, g.memory, g.N())
  }

  function LateInit(p: Params, groups: seq<SDKGroup>): Params
    requires LateSafe(p, groups)
  {
    if !HasCount(groups) then p
    else
      var g := groups[0];
      Params(p.id, if p.members.None? then Some(g.N()) else p.members,
             LateField(p.cpu, g.cpu, g.N()), LateField(p.disk, g.disk, g.N()), LateField(p.memory, g.memory, g.N()))
  }

  /** What the spec would have to be for the remote to be up to date. */
  function Actual(id: string, groups: seq<SDKGroup>): Params
    requires LateSafe(Params(Some(id), None, None, None, None), groups)
  {
    LateInit(Params(Some(id), None, None, None, None), groups)
  }

  // ---------------------------------------------------------------- observation

  predicate Observable(g: SDKGroup) {
    g.Counted() ==>
      && g.id.Some? && g.count.Some?
      && Divisible(g.cpu, g.N()) && Divisible(g.disk, g.N()) && Divisible(g.memory, g.N())
  }

  predicate AllObservable(groups: seq<SDKGroup>) {
    forall i :: 0 <= i < |groups| ==> Observable(groups[i])
  }

  function SplitOf(r: Option<Allocation>, n: int64): Split
    requires Divisible(r, n)
  {
    Split(r.value.amount.value, Share(r, n))
  }

  function StatusOf(g: SDKGroup): StatusGroup
    requires g.Counted() && Observable(g)
  {
    StatusGroup(g.id.value, g.count.value, g.N(),
                SplitOf(g.cpu, g.N()), SplitOf(g.disk, g.N()), SplitOf(g.memory, g.N()))
  }

  /**
    The recorded groups. Where the first group reports a count it is also the first one recorded, so the n that
    an update multiplies with is the n that the up-to-date test divides by.
   */
  function Observed(groups: seq<SDKGroup>): (r: seq<StatusGroup>)
    requires AllObservable(groups)
    ensures HasCount(groups) ==> r != [] && r[0] == StatusOf(groups[0])
  {
    if groups == [] then []
    else
      var g := groups[|groups| - 1];
      Observed(groups[..|groups| - 1]) + if g.Counted() then [StatusOf(g)] else []
  }

  function CountedBefore(groups: seq<SDKGroup>, k: nat): nat
    requires k <= |groups|
  {
    if k == 0 then 0 else CountedBefore(groups, k - 1) + if groups[k - 1].Counted() then 1 else 0
  }

  /** The groups without a count are skipped, so the k-th group lands behind the counted groups before it. */
  lemma {:induction false} ObservedAt(groups: seq<SDKGroup>, k: nat)
    requires AllObservable(groups) && k < |groups|
    ensures |Observed(groups)| == CountedBefore(groups, |groups|)
    ensures CountedBefore(groups, k) + (if groups[k].Counted() then 1 else 0) <= |Observed(groups)|
    ensures groups[k].Counted() ==> Observed(groups)[CountedBefore(groups, k)] == StatusOf(groups[k])
  {
    var n := |groups| - 1;
    var front := groups[..n];
    CountedPrefix(groups, n, n);
    if k < n {
      ObservedAt(front, k);
      CountedPrefix(groups, n, k);
    } else if n > 0 {
      ObservedAt(front, 0);
    }
  }

  lemma {:induction false} CountedPrefix(groups: seq<SDKGroup>, n: nat, k: nat)
    requires k <= n <= |groups|
    ensures CountedBefore(groups[..n], k) == CountedBefore(groups, k)
  {
    if k > 0 {
      CountedPrefix(groups, n, k - 1);
    }
  }

  /** An amount as the remote reports it, with what is recorded of it. */
  predicate Records(s: Split, r: Option<Allocation>, n: int64) {
    r == Some(Allocation(Some(s.total))) && n != 0 && s.perMember == Div(s.total, n)
  }

  /** Each recorded field is the remote's field of the same name, and each share is that resource's total divided. */
  lemma ObservedExact(groups: seq<SDKGroup>, k: nat)
    requires AllObservable(groups) && k < |groups| && groups[k].Counted()
    ensures CountedBefore(groups, k) < |Observed(groups)|
    ensures var st, g := Observed(groups)[CountedBefore(groups, k)], groups[k];
      && g.id == Some(st.id) && g.count == Some(st.count) && g.members == Some(Allocation(Some(st.members)))
      && Records(st.cpu, g.cpu, st.members) && Records(st.disk, g.disk, st.members)
      && Records(st.memory, g.memory, st.members)
  {
    ObservedAt(groups, k);
    assert Observable(groups[k]);
  }

  predicate Reports(r: Option<Allocation>) {
    r.Some? && r.value.amount.Some?
  }

  /**
    What panics, in terms of the response. Observing needs the id, the count and all three amounts of every group
    with a member count, which must not be zero; late initialization needs the same of the first group, but only for
    the resources that it divides.
   */
  lemma PanicsExactly(p: Params, groups: seq<SDKGroup>)
    ensures AllObservable(groups) <==>
      forall i :: 0 <= i < |groups| && Reports(groups[i].members) ==>
        var g := groups[i];
        && g.id.Some? && g.count.Some? && Reports(g.cpu) && Reports(g.disk) && Reports(g.memory)
        && g.members.value.amount.value != 0
    ensures LateSafe(p, groups) <==>
      (|groups| > 0 && Reports(groups[0].members) ==>
         var g := groups[0];
         var nonzero := g.members.value.amount.value != 0;
         && (p.cpu.None? && g.cpu.Some? ==> g.cpu.value.amount.Some? && nonzero)
         && (p.disk.None? && g.disk.Some? ==> g.disk.value.amount.Some? && nonzero)
         && (p.memory.None? && g.memory.Some? ==> g.memory.value.amount.Some? && nonzero))
  {
  }

  /** The share is the largest whole amount that all members can have at once. */
  ghost predicate IsLargestShare(s: Split, n: int) {
    s.total >= 0 ==> s.perMember * n <= s.total < (s.perMember + 1) * n
  }

  lemma SplitIsLargest(r: Option<Allocation>, n: int64)
    requires Divisible(r, n) && n > 0
    ensures IsLargestShare(SplitOf(r, n), n)
  {
    var s := SplitOf(r, n);
    DivIsQuotient(s.total, n);
    QuotientBounds(s.total, n);
    assert (s.perMember + 1) * n == s.perMember * n + n;
  }

  lemma ShareBounds(groups: seq<SDKGroup>, k: nat)
    requires AllObservable(groups) && k < |groups| && groups[k].Counted() && groups[k].N() > 0
    ensures CountedBefore(groups, k) < |Observed(groups)|
    ensures var st := Observed(groups)[CountedBefore(groups, k)];
      && st.members == groups[k].N()
      && IsLargestShare(st.cpu, st.members) && IsLargestShare(st.disk, st.members)
      && IsLargestShare(st.memory, st.members)
  {
    ObservedAt(groups, k);
    var g := groups[k];
    assert Observable(g);
    SplitIsLargest(g.cpu, g.N());
    SplitIsLargest(g.disk, g.N());
    SplitIsLargest(g.memory, g.N());
  }

  // ---------------------------------------------------------------- the request and the remote

  function Total(field: Option<int64>, n: int64): Option<int64> {
    if field.None? then None else Some(Mul(field.value, n))
  }

  /** The multiplier is the member count of the first recorded group. */
  function RequestFor(p: Params, status: seq<StatusGroup>): Request
    requires status != []
  {
    var n := status[0].members;
    Request(p.members, Total(p.cpu, n), Total(p.disk, n), Total(p.memory, n))
  }

  /** A request asks for a total exactly where the spec has an amount; the count itself is passed on. */
  lemma RequestExact(p: Params, status: seq<StatusGroup>)
    requires status != []
    ensures var req, n := RequestFor(p, status), status[0].members;
      && req.members == p.members
      && IsTotal(req.cpu, p.cpu, n) && IsTotal(req.disk, p.disk, n) && IsTotal(req.memory, p.memory, n)
  {
  }

  /** The product, up to a multiple of the word size. */
  predicate IsTotal(requested: Option<int64>, amount: Option<int64>, n: int64) {
    && (requested.Some? <==> amount.Some?)
    && (amount.Some? ==> (requested.value - amount.value * n) % 0x1_0000_0000_0000_0000 == 0)
  }

  /** A total as the remote will hold it after the resize, if it can be represented. */
  function Regrouped(requested: Option<int64>, r: Option<Allocation>, n: int64, n': int64): Option<int64>
    requires n > 0
  {
    var basis := if requested.Some? then requested
                 else if r.Some? then r.value.amount else None;
    if basis.None? then None
    else
      var total := Quotient(basis.value, n) * n';
      if Fits(total) then Some(total) else None
  }

  /**
    The remote reads each total as total/n per current member and gives that to every one of the n' members.
    It refuses when a count is not positive or a new total is missing or not representable.
   */
  function Resize(groups: seq<SDKGroup>, req: Request): Option<seq<SDKGroup>> {
    if !HasCount(groups) || groups[0].N() <= 0 then None
    else
      var g := groups[0];
      var n := g.N();
      var n' := if req.members.Some? then req.members.value else n;
      var cpu, disk, memory := Regrouped(req.cpu, g.cpu, n, n'), Regrouped(req.disk, g.disk, n, n'),
                               Regrouped(req.memory, g.memory, n, n');
      if n' <= 0 || cpu.None? || disk.None? || memory.None? then None
      else Some([g.(members := Some(Allocation(Some(n'))), cpu := Some(Allocation(cpu)),
                    disk := Some(Allocation(disk)), memory := Some(Allocation(memory)))] + groups[1..])
  }

  // ---------------------------------------------------------------- late initialization

  /** `q` is `p` with nothing changed that was set. */
  predicate Extends(p: Params, q: Params) {
    && q.id == p.id
    && (p.members.Some? ==> q.members == p.members)
    && (p.cpu.Some? ==> q.cpu == p.cpu)
    && (p.disk.Some? ==> q.disk == p.disk)
    && (p.memory.Some? ==> q.memory == p.memory)
  }

  /** An unset field takes the share of its own resource, when that is reported. */
  predicate Fills(before: Option<int64>, after: Option<int64>, r: Option<Allocation>, n: int64) {
    if before.Some? || r.None? then after == before
    else Reports(r) && n != 0 && after == Some(Div(r.value.amount.value, n))
  }

  /** Each field on its own: what late initialization makes of it, from the first group or not at all. */
  lemma LateInitExact(p: Params, groups: seq<SDKGroup>)
    requires LateSafe(p, groups)
    ensures groups == [] || !Reports(groups[0].members) ==> LateInit(p, groups) == p
    ensures groups != [] && Reports(groups[0].members) ==>
      var q, g := LateInit(p, groups), groups[0];
      var n := g.members.value.amount.value;
      && q.id == p.id && q.members == (if p.members.Some? then p.members else Some(n))
      && Fills(p.cpu, q.cpu, g.cpu, n) && Fills(p.disk, q.disk, g.disk, n) && Fills(p.memory, q.memory, g.memory, n)
  {
  }

  /** An amount of the spec agrees with the remote: the share of a reported resource, nothing for a missing one. */
  predicate Agrees(amount: Option<int64>, r: Option<Allocation>, n: int64) {
    Fills(None, amount, r, n)
  }

  /** The up-to-date test, field by field: nothing may be set where the first group has no count. */
  lemma TestExact(p: Params, id: string, groups: seq<SDKGroup>)
    requires LateSafe(Params(Some(id), None, None, None, None), groups)
    ensures groups == [] || !Reports(groups[0].members) ==>
      (p == Actual(id, groups) <==> p == Params(Some(id), None, None, None, None))
    ensures groups != [] && Reports(groups[0].members) ==>
      var g := groups[0];
      var n := g.members.value.amount.value;
      (p == Actual(id, groups) <==>
         && p.id == Some(id) && p.members == Some(n)
         && Agrees(p.cpu, g.cpu, n) && Agrees(p.disk, g.disk, n) && Agrees(p.memory, g.memory, n))
  {
  }

  /**
    Late initialization never overwrites, a second application changes nothing, and a spec with every
    allocation unset is up to date right after it exactly when its id matches, whatever the remote omits.
   */
  lemma LateInitLaws(p: Params, groups: seq<SDKGroup>, id: string)
    requires LateSafe(p, groups)
    ensures var q := LateInit(p, groups);
      && Extends(p, q)
      && LateSafe(q, groups) && LateInit(q, groups) == q
      && (p == Params(p.id, None, None, None, None) ==>
            LateSafe(Params(Some(id), None, None, None, None), groups) && (q == Actual(id, groups) <==> p.id == Some(id)))
  {
  }

  // ---------------------------------------------------------------- convergence

  predicate ProductsFit(p: Params, n: int) {
    && (p.cpu.Some? ==> Fits(p.cpu.value * n))
    && (p.disk.Some? ==> Fits(p.disk.value * n))
    && (p.memory.Some? ==> Fits(p.memory.value * n))
  }

  /** One resource through multiplication, regrouping and division. */
  lemma RegroupedShare(m: int64, r: Option<Allocation>, n: int64, n': int64)
    requires n > 0 && n' > 0
    ensures Fits(m * n) ==> Regrouped(Some(Mul(m, n)), r, n, n') == if Fits(m * n') then Some(m * n') else None
    ensures var t := Regrouped(Some(Mul(m, n)), r, n, n'); t.Some? ==> (Div(t.value, n') == m <==> Fits(m * n))
  {
    MulDivExact(m, n);
    DivIsQuotient(Mul(m, n), n);
    var q := Quotient(Mul(m, n), n);
    if Fits(q * n') {
      QuotientOfProduct(q, n');
      DivIsQuotient(q * n', n');
    }
  }

  /** A resize leaves a group that can be observed. */
  lemma ResizedObservable(groups: seq<SDKGroup>, req: Request, groups': seq<SDKGroup>)
    requires AllObservable(groups) && HasCount(groups) && Resize(groups, req) == Some(groups')
    ensures AllObservable(groups') && HasCount(groups') && groups[0].N() > 0 && groups'[0].N() > 0
  {
    assert Observable(groups[0]);
    forall i | 0 <= i < |groups'| ensures Observable(groups'[i]) {
      assert i > 0 ==> groups'[i] == groups[i];
    }
  }

  /**
    Observe, Update, Observe, for every start state, every desired amounts and every resize: whenever the remote
    accepts the request, the second Observe reports up to date exactly when the id matches and no product
    wrapped around.
   */
  lemma OneStepConvergence(p: Params, id: string, groups: seq<SDKGroup>, groups': seq<SDKGroup>)
    requires AllObservable(groups) && HasCount(groups) && LateSafe(p, groups)
    requires Resize(groups, RequestFor(LateInit(p, groups), Observed(groups))) == Some(groups')
    ensures var q := LateInit(p, groups);
      && AllObservable(groups') && LateSafe(q, groups') && LateInit(q, groups') == q
      && (q == Actual(id, groups') <==> p.id == Some(id) && ProductsFit(q, groups[0].N()))
  {
    var q, g := LateInit(p, groups), groups[0];
    var n, n' := g.N(), q.members.value;
    ResizedObservable(groups, RequestFor(q, Observed(groups)), groups');
    assert Observable(g) && Observable(groups'[0]);
    RegroupedShare(q.cpu.value, g.cpu, n, n');
    RegroupedShare(q.disk.value, g.disk, n, n');
    RegroupedShare(q.memory.value, g.memory, n, n');
  }

  /** Positive counts, and every wanted amount times either count fits 64 bits. */
  predicate WithinRange(p: Params, groups: seq<SDKGroup>) {
    && AllObservable(groups) && HasCount(groups) && LateSafe(p, groups)
    && groups[0].N() > 0
    && var q := LateInit(p, groups);
       q.members.value > 0 && ProductsFit(q, groups[0].N()) && ProductsFit(q, q.members.value)
  }

  /** With positive counts and all products in range the remote accepts, so one round always converges. */
  lemma ConvergesWithinRange(p: Params, id: string, groups: seq<SDKGroup>)
    requires WithinRange(p, groups)
    ensures var q := LateInit(p, groups);
            var groups' := Resize(groups, RequestFor(q, Observed(groups)));
            && groups'.Some? && LateSafe(q, groups'.value) && LateInit(q, groups'.value) == q
            && (q == Actual(id, groups'.value) <==> p.id == Some(id))
  {
    var q, g := LateInit(p, groups), groups[0];
    var n, n' := g.N(), q.members.value;
    assert Observable(g);
    RegroupedShare(q.cpu.value, g.cpu, n, n');
    RegroupedShare(q.disk.value, g.disk, n, n');
    RegroupedShare(q.memory.value, g.memory, n, n');
    OneStepConvergence(p, id, groups, Resize(groups, RequestFor(q, Observed(groups))).value);
  }

  /** The total that a late-initialised amount asks for is less than one unit per member nearer to zero. */
  predicate LosesLessThanOneEach(requested: Option<int64>, r: Option<Allocation>, n: int) {
    && requested.Some? && r.Some? && r.value.amount.Some?
    && var t := r.value.amount.value;
       if t >= 0 then requested.value <= t < requested.value + n else requested.value - n < t <= requested.value
  }

  /** At an unchanged count the remote accepts the request, and repeating the pair requests the same again. */
  lemma LateInitRepeats(p: Params, groups: seq<SDKGroup>)
    requires AllObservable(groups) && HasCount(groups) && groups[0].N() > 0
    requires p.members.None? || p.members == Some(groups[0].N())
    ensures LateSafe(p, groups)
    ensures var req := RequestFor(LateInit(p, groups), Observed(groups));
      var groups' := Resize(groups, req);
      && groups'.Some? && AllObservable(groups'.value) && LateSafe(p, groups'.value) && HasCount(groups'.value)
      && RequestFor(LateInit(p, groups'.value), Observed(groups'.value)) == req
  {
    assert Observable(groups[0]);
    var q, g := LateInit(p, groups), groups[0];
    var n, req := g.N(), RequestFor(q, Observed(groups));
    ShareFits(req.cpu.value, n);
    ShareFits(req.disk.value, n);
    ShareFits(req.memory.value, n);
    ShareRepeats(q.cpu, p.cpu, g.cpu, n);
    ShareRepeats(q.disk, p.disk, g.disk, n);
    ShareRepeats(q.memory, p.memory, g.memory, n);
    OneStepConvergence(p, "", groups, Resize(groups, req).value);
  }

  /** One resource, requested, regrouped at the same count and late-initialised again. */
  lemma ShareRepeats(late: Option<int64>, given: Option<int64>, r: Option<Allocation>, n: int64)
    requires n > 0 && Divisible(r, n) && late == LateField(given, r, n)
    ensures var t := Regrouped(Total(late, n), r, n, n);
      && t.Some?
      && (given.None? ==> Div(t.value, n) == late.value)
  {
    ShareFits(Mul(late.value, n), n);
    ShareFits(r.value.amount.value, n);
    RegroupedShare(late.value, r, n, n);
  }

  /**
    Each late-initialised field, independently of the others and whatever the sign of its total, makes the update
    give up less than one unit per member. At an unchanged count the remote accepts the request whatever the spec
    sets, and repeating the pair of late initialization and update requests the same again.
   */
  lemma LateInitLoses(p: Params, groups: seq<SDKGroup>)
    requires AllObservable(groups) && HasCount(groups) && groups[0].N() > 0
    ensures LateSafe(p, groups)
    ensures var n, req := groups[0].N(), RequestFor(LateInit(p, groups), Observed(groups));
      && (p.cpu.None? ==> LosesLessThanOneEach(req.cpu, groups[0].cpu, n))
      && (p.disk.None? ==> LosesLessThanOneEach(req.disk, groups[0].disk, n))
      && (p.memory.None? ==> LosesLessThanOneEach(req.memory, groups[0].memory, n))
      && (p.members.None? || p.members == Some(n) ==>
            var groups' := Resize(groups, req);
            && groups'.Some? && AllObservable(groups'.value) && LateSafe(p, groups'.value)
            && HasCount(groups'.value)
            && RequestFor(LateInit(p, groups'.value), Observed(groups'.value)) == req)
  {
    assert Observable(groups[0]);
    var g := groups[0];
    var n := g.N();
    ShareFits(g.cpu.value.amount.value, n);
    ShareFits(g.disk.value.amount.value, n);
    ShareFits(g.memory.value.amount.value, n);
    if p.members.None? || p.members == Some(n) {
      LateInitRepeats(p, groups);
    }
  }

  /** What the shares of a total amount to, in 64 bits. */
  lemma ShareFits(t: int64, n: int64)
    requires n > 0
    ensures Div(t, n) == Quotient(t, n) && Fits(Div(t, n) * n)
    ensures var r := Div(t, n) * n;
      if t >= 0 then r <= t < r + n else r - n < t <= r
  {
    DivIsQuotient(t, n);
    QuotientBounds(t, n);
    if t >= 0 {
      ProductOrder(0, Div(t, n), n);
    } else {
      ProductOrder(Div(t, n), 0, n);
    }
  }
}
