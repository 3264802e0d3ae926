/**
  pkg/clients/policy: late initialization fills the unset cells of nested lists in place. The loop over subjects
  writes to the resources, so which cells it touches depends on the subjects.
 */
module Policies {

  import opened Pointers

  datatype Attribute = Attribute(name: Option<string>, value: Option<string>, operator: Option<string>)

  datatype SubjectAttribute = SubjectAttribute(name: Option<string>, value: Option<string>)

  /** Resources and subjects are lists of attribute lists. */
  type Resources = seq<seq<Attribute>>
  type Subjects = seq<seq<SubjectAttribute>>

  /** The spec; a list may be nil. */
  datatype Params = Params(
    policyType: string, description: Option<string>,
    resources: Option<Resources>, roles: Option<seq<string>>, subjects: Option<Subjects>)

  /** The policy as the remote describes it. */
  datatype SDKPolicy = SDKPolicy(
    policyType: Option<string>, description: Option<string>,
    resources: Resources, roles: seq<Option<string>>, subjects: Subjects)

  predicate InRange<T>(xs: seq<seq<T>>, i: int, j: int) {
    0 <= i < |xs| && 0 <= j < |xs[i]|
  }

  function RoleIDs(roles: seq<Option<string>>): seq<string> {
    seq(|roles|, i requires 0 <= i < |roles| => FromPtrValue(roles[i]))
  }

  function Or(a: Option<string>, b: Option<string>): Option<string> {
    if a.None? then b else a
  }

  predicate Complete(a: Attribute) {
    a.name.Some? && a.value.Some? && a.operator.Some?
  }

  predicate CompleteSubject(a: SubjectAttribute) {
    a.name.Some? && a.value.Some?
  }

  // ---------------------------------------------------------------- what the three loops do, cell by cell

  /** First loop: an unset cell takes the observed one at the same place. */
  function FillCell(a: Attribute, obs: Resources, i: nat, j: nat): Attribute {
    if Complete(a) || !InRange(obs, i, j) then a
    else Attribute(Or(a.name, obs[i][j].name), Or(a.value, obs[i][j].value), Or(a.operator, obs[i][j].operator))
  }

  function FillAll(rs: Resources, obs: Resources): (r: Resources)
    ensures |r| == |rs| && forall i :: 0 <= i < |rs| ==> |r[i]| == |rs[i]|
  {
    seq(|rs|, i requires 0 <= i < |rs| =>
      seq(|rs[i]|, j requires 0 <= j < |rs[i]| => FillCell(rs[i][j], obs, i, j)))
  }

  function FillRoles(roles: seq<string>, obs: seq<Option<string>>): seq<string> {
    seq(|roles|, i requires 0 <= i < |roles| =>
      if roles[i] == "" && i < |obs| then FromPtrValue(obs[i]) else roles[i])
  }

  /** Third loop: an unset name or value of a subject overwrites the resource cell at the same place. */
  function OverwriteCell(a: Attribute, subjects: Subjects, obs: Resources, i: nat, j: nat): Attribute {
    if !InRange(subjects, i, j) || !InRange(obs, i, j) then a
    else
      var s := subjects[i][j];
      a.(name := if s.name.None? then obs[i][j].name else a.name,
         value := if s.value.None? then obs[i][j].value else a.value)
  }

  function OverwriteAll(rs: Resources, subjects: Subjects, obs: Resources): (r: Resources)
    ensures |r| == |rs| && forall i :: 0 <= i < |rs| ==> |r[i]| == |rs[i]|
  {
    seq(|rs|, i requires 0 <= i < |rs| =>
      seq(|rs[i]|, j requires 0 <= j < |rs[i]| => OverwriteCell(rs[i][j], subjects, obs, i, j)))
  }

  // ---------------------------------------------------------------- when the loops stay in bounds

  ghost predicate FillSafe(rs: Resources, obs: Resources) {
    forall i, j :: InRange(rs, i, j) && !Complete(rs[i][j]) ==> InRange(obs, i, j)
  }

  ghost predicate RolesSafe(roles: seq<string>, obs: seq<Option<string>>) {
    forall i :: 0 <= i < |roles| && roles[i] == "" ==> i < |obs|
  }

  ghost predicate OverwriteSafe(rs: Resources, subjects: Subjects, obs: Resources) {
    forall i, j :: InRange(subjects, i, j) && !CompleteSubject(subjects[i][j]) ==> InRange(rs, i, j) && InRange(obs, i, j)
  }

  function GivenResources(p: Params, d: SDKPolicy): Resources {
    if p.resources.None? then d.resources else p.resources.value
  }

  function GivenRoles(p: Params, d: SDKPolicy): seq<string> {
    if p.roles.None? then RoleIDs(d.roles) else p.roles.value
  }

  function GivenSubjects(p: Params, d: SDKPolicy): Subjects {
    if p.subjects.None? then d.subjects else p.subjects.value
  }

  /** No index out of range on the whole way. */
  ghost predicate LateSafe(p: Params, d: SDKPolicy) {
    && FillSafe(GivenResources(p, d), d.resources)
    && RolesSafe(GivenRoles(p, d), d.roles)
    && OverwriteSafe(GivenResources(p, d), GivenSubjects(p, d), d.resources)
  }

  function LateInit(p: Params, d: SDKPolicy): Params {
    Params(
      if p.policyType == "" then FromPtrValue(d.policyType) else p.policyType,
      Or(p.description, d.description),
      Some(OverwriteAll(FillAll(GivenResources(p, d), d.resources), GivenSubjects(p, d), d.resources)),
      Some(FillRoles(GivenRoles(p, d), d.roles)),
      Some(GivenSubjects(p, d)))
  }

  /** Equal up to nil and empty lists. */
  predicate UpToDate(p: Params, d: SDKPolicy) {
    && p.policyType == FromPtrValue(d.policyType)
    && p.description == d.description
    && (if p.resources.None? then [] else p.resources.value) == d.resources
    && (if p.roles.None? then [] else p.roles.value) == RoleIDs(d.roles)
    && (if p.subjects.None? then [] else p.subjects.value) == d.subjects
  }

  /** The test, list by list: everything but the difference between a nil and an empty list counts. */
  lemma TestExact(p: Params, d: SDKPolicy)
    ensures UpToDate(p, d) <==>
      && p.policyType == FromPtrValue(d.policyType) && p.description == d.description
      && (p.resources == Some(d.resources) || (p.resources.None? && |d.resources| == 0))
      && (p.subjects == Some(d.subjects) || (p.subjects.None? && |d.subjects| == 0))
      && (p.roles.Some? || |d.roles| == 0)
      && (p.roles.Some? ==>
            |p.roles.value| == |d.roles| && forall i :: 0 <= i < |d.roles| ==> p.roles.value[i] == FromPtrValue(d.roles[i]))
  {
    if p.roles.Some? && |p.roles.value| == |d.roles|
       && (forall i :: 0 <= i < |d.roles| ==> p.roles.value[i] == FromPtrValue(d.roles[i])) {
      assert p.roles.value == RoleIDs(d.roles);
    }
    if UpToDate(p, d) && p.roles.Some? {
      forall i | 0 <= i < |d.roles| ensures p.roles.value[i] == FromPtrValue(d.roles[i]) {
        assert p.roles.value[i] == RoleIDs(d.roles)[i];
      }
    }
  }

  // ---------------------------------------------------------------- every cell, exactly

  /** The observed cell at a place; one that is not there has nothing set. */
  function At(obs: Resources, i: nat, j: nat): Attribute {
    if InRange(obs, i, j) then obs[i][j] else Attribute(None, None, None)
  }

  /** A subject attribute whose name or value is unset takes the cell of the resources at its place for its own. */
  predicate TakesName(subjects: Subjects, i: nat, j: nat) {
    InRange(subjects, i, j) && subjects[i][j].name.None?
  }

  predicate TakesValue(subjects: Subjects, i: nat, j: nat) {
    InRange(subjects, i, j) && subjects[i][j].value.None?
  }

  /** One resource cell: unset parts are filled, and an incomplete subject has its set parts overwritten as well. */
  lemma CellExact(p: Params, d: SDKPolicy, i: nat, j: nat)
    requires LateSafe(p, d) && InRange(GivenResources(p, d), i, j)
    ensures LateInit(p, d).resources.Some? && InRange(LateInit(p, d).resources.value, i, j)
    ensures var before, after := GivenResources(p, d)[i][j], LateInit(p, d).resources.value[i][j];
      var observed, subjects := At(d.resources, i, j), GivenSubjects(p, d);
      && after.name == (if before.name.None? || TakesName(subjects, i, j) then observed.name else before.name)
      && after.value == (if before.value.None? || TakesValue(subjects, i, j) then observed.value else before.value)
      && after.operator == (if before.operator.None? then observed.operator else before.operator)
  {
    var subjects := GivenSubjects(p, d);
    var filled := FillAll(GivenResources(p, d), d.resources);
    assert !Complete(GivenResources(p, d)[i][j]) ==> InRange(d.resources, i, j);
    assert InRange(subjects, i, j) && !CompleteSubject(subjects[i][j]) ==> InRange(d.resources, i, j);
    assert LateInit(p, d).resources.value[i][j] == OverwriteCell(filled[i][j], subjects, d.resources, i, j);
  }

  /** Everything else: the lists that late initialization works on, the shape of its result, and the single fields. */
  lemma LateInitExact(p: Params, d: SDKPolicy)
    requires LateSafe(p, d)
    ensures GivenResources(p, d) == (if p.resources.Some? then p.resources.value else d.resources)
    ensures GivenSubjects(p, d) == (if p.subjects.Some? then p.subjects.value else d.subjects)
    ensures var q, rs := LateInit(p, d), GivenResources(p, d);
      && q.policyType == (if p.policyType != "" then p.policyType else FromPtrValue(d.policyType))
      && q.description == (if p.description.Some? then p.description else d.description)
      && q.subjects == Some(GivenSubjects(p, d))
      && q.resources.Some? && |q.resources.value| == |rs|
      && (forall i :: 0 <= i < |rs| ==> |q.resources.value[i]| == |rs[i]|)
      && q.roles.Some? && |q.roles.value| == (if p.roles.Some? then |p.roles.value| else |d.roles|)
      && forall i :: 0 <= i < |q.roles.value| ==>
           if p.roles.Some? && p.roles.value[i] != "" then q.roles.value[i] == p.roles.value[i]
           else i < |d.roles| && q.roles.value[i] == FromPtrValue(d.roles[i])
  {
    var roles := GivenRoles(p, d);
    forall i | 0 <= i < |roles|
      ensures if p.roles.Some? && p.roles.value[i] != "" then FillRoles(roles, d.roles)[i] == p.roles.value[i]
              else i < |d.roles| && FillRoles(roles, d.roles)[i] == FromPtrValue(d.roles[i])
    {
      assert roles[i] == "" ==> i < |d.roles|;
    }
  }

  /** Some part of the cell is unset. */
  predicate Wanting(rs: Resources, i: int, j: int) {
    InRange(rs, i, j) && (rs[i][j].name.None? || rs[i][j].value.None? || rs[i][j].operator.None?)
  }

  predicate TakesCell(subjects: Subjects, i: int, j: int) {
    i >= 0 && j >= 0 && (TakesName(subjects, i, j) || TakesValue(subjects, i, j))
  }

  /** Wherever a part is unset there is an observed cell. */
  ghost predicate CellsThere(rs: Resources, obs: Resources) {
    forall i, j :: Wanting(rs, i, j) ==> InRange(obs, i, j)
  }

  /** Every role beyond the observed ones has an id. */
  ghost predicate RolesThere(roles: seq<string>, obs: seq<Option<string>>) {
    forall i :: |obs| <= i < |roles| ==> roles[i] != ""
  }

  /** Wherever a subject takes something there are a resource cell and an observed one. */
  ghost predicate PlacesThere(subjects: Subjects, rs: Resources, obs: Resources) {
    forall i, j :: TakesCell(subjects, i, j) ==> InRange(rs, i, j) && InRange(obs, i, j)
  }

  /** What panics: an observed cell, an observed role or a resource cell that is needed and not there. */
  lemma PanicsExactly(p: Params, d: SDKPolicy)
    ensures LateSafe(p, d) <==>
      && (p.resources.Some? ==> CellsThere(p.resources.value, d.resources))
      && (p.roles.Some? ==> RolesThere(p.roles.value, d.roles))
      && PlacesThere(if p.subjects.Some? then p.subjects.value else d.subjects,
                     if p.resources.Some? then p.resources.value else d.resources, d.resources)
  {
    FillPanics(GivenResources(p, d), d.resources);
    RolesPanic(GivenRoles(p, d), d.roles);
    OverwritePanics(GivenResources(p, d), GivenSubjects(p, d), d.resources);
  }

  lemma FillPanics(rs: Resources, obs: Resources)
    ensures FillSafe(rs, obs) <==> CellsThere(rs, obs)
    ensures rs == obs ==> CellsThere(rs, obs)
  {
    assert forall i, j :: Wanting(rs, i, j) <==> InRange(rs, i, j) && !Complete(rs[i][j]);
  }

  lemma RolesPanic(roles: seq<string>, obs: seq<Option<string>>)
    ensures RolesSafe(roles, obs) <==> RolesThere(roles, obs)
    ensures |roles| == |obs| ==> RolesThere(roles, obs)
  {
  }

  lemma OverwritePanics(rs: Resources, subjects: Subjects, obs: Resources)
    ensures OverwriteSafe(rs, subjects, obs) <==> PlacesThere(subjects, rs, obs)
  {
    assert forall i, j :: TakesCell(subjects, i, j) <==> InRange(subjects, i, j) && !CompleteSubject(subjects[i][j]);
  }

  // ---------------------------------------------------------------- what is kept

  predicate KeepsCell(a: Attribute, b: Attribute) {
    && (a.name.Some? ==> b.name == a.name)
    && (a.value.Some? ==> b.value == a.value)
    && (a.operator.Some? ==> b.operator == a.operator)
  }

  /** Same shape, and no set cell differs. */
  ghost predicate KeepsResources(rs: Resources, r: Resources) {
    && |r| == |rs|
    && (forall i :: 0 <= i < |rs| ==> |r[i]| == |rs[i]|)
    && (forall i, j :: 0 <= i < |rs| && 0 <= j < |rs[i]| ==> KeepsCell(rs[i][j], r[i][j]))
  }

  predicate KeepsRoles(roles: seq<string>, r: seq<string>) {
    |r| == |roles| && forall i :: 0 <= i < |roles| && roles[i] != "" ==> r[i] == roles[i]
  }

  /** No set cell of the spec has changed. */
  ghost predicate KeepsSetCells(p: Params, q: Params) {
    && (p.policyType != "" ==> q.policyType == p.policyType)
    && (p.description.Some? ==> q.description == p.description)
    && (p.resources.Some? ==> q.resources.Some? && KeepsResources(p.resources.value, q.resources.value))
    && (p.roles.Some? ==> q.roles.Some? && KeepsRoles(p.roles.value, q.roles.value))
    && (p.subjects.Some? ==> q.subjects == p.subjects)
  }

  ghost predicate AllComplete(subjects: Subjects) {
    forall i, j :: InRange(subjects, i, j) ==> CompleteSubject(subjects[i][j])
  }

  lemma CompleteSubjectsOverwriteNothing(rs: Resources, subjects: Subjects, obs: Resources)
    requires AllComplete(subjects)
    ensures OverwriteAll(rs, subjects, obs) == rs
  {
    var r := OverwriteAll(rs, subjects, obs);
    forall i | 0 <= i < |rs| ensures r[i] == rs[i] {
      forall j | 0 <= j < |rs[i]| ensures r[i][j] == rs[i][j] {
        assert InRange(subjects, i, j) ==> CompleteSubject(subjects[i][j]);
      }
    }
  }

  /** With complete subjects exactly the unset cells change, and each takes the observed value. */
  lemma FillsOnlyUnset(p: Params, d: SDKPolicy)
    requires LateSafe(p, d) && AllComplete(GivenSubjects(p, d))
    ensures KeepsSetCells(p, LateInit(p, d))
    ensures var given, filled := GivenResources(p, d), LateInit(p, d).resources.value;
      |filled| == |given| && forall i, j :: InRange(given, i, j) && !Complete(given[i][j]) ==>
        && InRange(filled, i, j) && InRange(d.resources, i, j)
        && filled[i][j].name == Or(given[i][j].name, d.resources[i][j].name)
        && filled[i][j].value == Or(given[i][j].value, d.resources[i][j].value)
        && filled[i][j].operator == Or(given[i][j].operator, d.resources[i][j].operator)
    ensures var given, filled := GivenRoles(p, d), LateInit(p, d).roles.value;
      |filled| == |given| && forall i :: 0 <= i < |given| && given[i] == "" ==>
        i < |d.roles| && filled[i] == FromPtrValue(d.roles[i])
    ensures p.policyType == "" ==> LateInit(p, d).policyType == FromPtrValue(d.policyType)
    ensures p.description.None? ==> LateInit(p, d).description == d.description
  {
    CompleteSubjectsOverwriteNothing(FillAll(GivenResources(p, d), d.resources), GivenSubjects(p, d), d.resources);
  }

  /** Whatever the rest of the spec and the remote hold, late initialization changes no set cell. */
  ghost predicate AlwaysKeeps(subjects: Subjects) {
    forall p: Params, d: SDKPolicy ::
      p.subjects == Some(subjects) && LateSafe(p, d) ==> KeepsSetCells(p, LateInit(p, d))
  }

  /** Resources of the shape of the subjects, with one text in every cell. */
  function Uniform(subjects: Subjects, t: string): (r: Resources)
    ensures |r| == |subjects| && forall i :: 0 <= i < |r| ==> |r[i]| == |subjects[i]|
  {
    seq(|subjects|, i requires 0 <= i < |subjects| =>
      seq(|subjects[i]|, j requires 0 <= j < |subjects[i]| => Attribute(Some(t), Some(t), Some(t))))
  }

  /**
    Filling only unset cells is a property of the given subjects: it holds for every spec and every remote policy
    exactly when every subject attribute carries a name and a value.
   */
  lemma SubjectsDecide(subjects: Subjects)
    ensures AlwaysKeeps(subjects) <==> AllComplete(subjects)
  {
    if AllComplete(subjects) {
      forall p: Params, d: SDKPolicy | p.subjects == Some(subjects) && LateSafe(p, d)
        ensures KeepsSetCells(p, LateInit(p, d))
      {
        FillsOnlyUnset(p, d);
      }
    } else {
      var i, j :| InRange(subjects, i, j) && !CompleteSubject(subjects[i][j]);
      IncompleteOverwrites(subjects, i, j);
    }
  }

  lemma IncompleteOverwrites(subjects: Subjects, i: nat, j: nat)
    requires InRange(subjects, i, j) && !CompleteSubject(subjects[i][j])
    ensures !AlwaysKeeps(subjects)
  {
    var mine, theirs := Uniform(subjects, "a"), Uniform(subjects, "b");
    var p := Params("access", None, Some(mine), Some([]), Some(subjects));
    var d := SDKPolicy(None, None, theirs, [], []);
    assert forall k, l :: InRange(mine, k, l) ==> Complete(mine[k][l]);
    assert LateSafe(p, d);
    var q := LateInit(p, d);
    assert mine[i][j] == Attribute(Some("a"), Some("a"), Some("a"));
    assert q.resources.value[i][j] == OverwriteCell(FillCell(mine[i][j], theirs, i, j), subjects, theirs, i, j);
    assert "a" != "b";
    assert !KeepsCell(mine[i][j], q.resources.value[i][j]);
    assert !KeepsSetCells(p, q);
  }

  /** Lists of the observed shape keep every index in range, as long as the subjects are complete. */
  lemma ObservedShapeIsSafe(p: Params, d: SDKPolicy)
    requires p.resources.Some? ==> |p.resources.value| == |d.resources|
    requires p.resources.Some? ==> forall i :: 0 <= i < |d.resources| ==> |p.resources.value[i]| == |d.resources[i]|
    requires p.roles.Some? ==> |p.roles.value| == |d.roles|
    requires AllComplete(GivenSubjects(p, d))
    ensures LateSafe(p, d)
  {
    forall i, j | InRange(GivenResources(p, d), i, j) ensures InRange(d.resources, i, j) {
    }
  }

  /** A second application is safe and changes nothing, even where the first one overwrote set cells. */
  lemma LateInitIdempotent(p: Params, d: SDKPolicy)
    requires LateSafe(p, d)
    ensures LateSafe(LateInit(p, d), d) && LateInit(LateInit(p, d), d) == LateInit(p, d)
  {
    var rs, subjects, obs := GivenResources(p, d), GivenSubjects(p, d), d.resources;
    ResourcesSettle(rs, subjects, obs);
    var q := LateInit(p, d);
    assert GivenResources(q, d) == OverwriteAll(FillAll(rs, obs), subjects, obs) && GivenSubjects(q, d) == subjects;
    RolesSettle(GivenRoles(p, d), d.roles);
  }

  lemma ResourcesSettle(rs: Resources, subjects: Subjects, obs: Resources)
    requires FillSafe(rs, obs) && OverwriteSafe(rs, subjects, obs)
    ensures var r := OverwriteAll(FillAll(rs, obs), subjects, obs);
      FillSafe(r, obs) && OverwriteSafe(r, subjects, obs) && OverwriteAll(FillAll(r, obs), subjects, obs) == r
  {
    var r := OverwriteAll(FillAll(rs, obs), subjects, obs);
    forall i, j | InRange(r, i, j)
      ensures InRange(rs, i, j) && r[i][j] == OverwriteCell(FillCell(rs[i][j], obs, i, j), subjects, obs, i, j)
      ensures !Complete(r[i][j]) ==> InRange(obs, i, j)
    {
      assert InRange(rs, i, j);
      assert !Complete(rs[i][j]) ==> InRange(obs, i, j);
    }
    forall i, j | InRange(subjects, i, j) && !CompleteSubject(subjects[i][j])
      ensures InRange(r, i, j) && InRange(obs, i, j)
    {
      assert InRange(rs, i, j);
    }
    var again := OverwriteAll(FillAll(r, obs), subjects, obs);
    forall i | 0 <= i < |r| ensures again[i] == r[i] {
      forall j | 0 <= j < |r[i]| ensures again[i][j] == r[i][j] {
        assert InRange(r, i, j);
      }
    }
  }

  lemma RolesSettle(roles: seq<string>, obs: seq<Option<string>>)
    requires RolesSafe(roles, obs)
    ensures RolesSafe(FillRoles(roles, obs), obs) && FillRoles(FillRoles(roles, obs), obs) == FillRoles(roles, obs)
  {
  }

  /** A spec with everything unset is up to date right after a late initialization that stays in bounds. */
  lemma UnsetSpecIsUpToDate(p: Params, d: SDKPolicy)
    requires p == Params("", None, None, None, None)
    ensures UpToDate(LateInit(p, d), d)
    ensures LateSafe(p, d) <==> OverwriteSafe(d.resources, d.subjects, d.resources)
  {
    var r := OverwriteAll(FillAll(d.resources, d.resources), d.subjects, d.resources);
    forall i | 0 <= i < |r| ensures r[i] == d.resources[i] {
      forall j | 0 <= j < |r[i]| ensures r[i][j] == d.resources[i][j] {
        assert InRange(d.resources, i, j);
      }
    }
    assert r == d.resources;
  }
}
