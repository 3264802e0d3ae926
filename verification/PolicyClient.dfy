/** pkg/clients/policy/policy.go in its own form: nested loops that write cells of the spec in place. */
module PolicyClient {

  import opened Pointers
  import opened Policies

  method GenerateCRRoles(roles: seq<Option<string>>) returns (o: seq<string>)
    ensures o == RoleIDs(roles)
    ensures |o| == |roles| && forall i :: 0 <= i < |o| ==> o[i] == FromPtrValue(roles[i])
  {
    o := [];
    for i := 0 to |roles|
      invariant o == RoleIDs(roles[..i])
    {
      o := o + [FromPtrValue(roles[i])];
    }
    assert roles[..|roles|] == roles;
  }

  method GenerateCRResources(resources: Resources) returns (o: Resources)
    ensures o == resources
  {
    o := [];
    for i := 0 to |resources|
      invariant o == resources[..i]
    {
      var attributes: seq<Attribute> := [];
      for j := 0 to |resources[i]|
        invariant attributes == resources[i][..j]
      {
        var a := resources[i][j];
        attributes := attributes + [Attribute(a.name, a.value, a.operator)];
      }
      assert attributes == resources[i];
      o := o + [attributes];
    }
  }

  method GenerateCRSubjects(subjects: Subjects) returns (o: Subjects)
    ensures o == subjects
  {
    o := [];
    for i := 0 to |subjects|
      invariant o == subjects[..i]
    {
      var attributes: seq<SubjectAttribute> := [];
      for j := 0 to |subjects[i]|
        invariant attributes == subjects[i][..j]
      {
        attributes := attributes + [SubjectAttribute(subjects[i][j].name, subjects[i][j].value)];
      }
      assert attributes == subjects[i];
      o := o + [attributes];
    }
  }

  method IsUpToDate(p: Params, d: SDKPolicy) returns (upToDate: bool)
    ensures upToDate <==> UpToDate(p, d)
  {
    var subjects := GenerateCRSubjects(d.subjects);
    var roles := GenerateCRRoles(d.roles);
    var resources := GenerateCRResources(d.resources);
    var actual := Params(FromPtrValue(d.policyType), d.description, Some(resources), Some(roles), Some(subjects));
    upToDate :=
      && p.policyType == actual.policyType && p.description == actual.description
      && (p.resources == actual.resources || (p.resources.None? && resources == []))
      && (p.roles == actual.roles || (p.roles.None? && roles == []))
      && (p.subjects == actual.subjects || (p.subjects.None? && subjects == []));
  }

  /** `r` has the shape of `rs`; the cells before (i, j) are those of `goal`, the others still those of `rs`. */
  ghost predicate Between(r: Resources, rs: Resources, goal: Resources, i: int, j: int) {
    && |r| == |rs| == |goal|
    && (forall a :: 0 <= a < |rs| ==> |r[a]| == |rs[a]| == |goal[a]|)
    && (forall a, b :: InRange(rs, a, b) ==>
          r[a][b] == if a < i || (a == i && b < j) then goal[a][b] else rs[a][b])
  }

  lemma BetweenStep(r: Resources, rs: Resources, goal: Resources, i: nat, j: nat, r': Resources)
    requires Between(r, rs, goal, i, j) && InRange(rs, i, j)
    requires r' == r[i := r[i][j := goal[i][j]]]
    ensures Between(r', rs, goal, i, j + 1)
  {
  }

  lemma BetweenRow(r: Resources, rs: Resources, goal: Resources, i: nat)
    requires i < |rs| && |goal| == |rs| && Between(r, rs, goal, i, |rs[i]|)
    ensures Between(r, rs, goal, i + 1, 0)
  {
  }

  lemma BetweenDone(r: Resources, rs: Resources, goal: Resources)
    requires Between(r, rs, goal, |rs|, 0)
    ensures r == goal
  {
    forall a | 0 <= a < |rs| ensures r[a] == goal[a] {
      forall b | 0 <= b < |rs[a]| ensures r[a][b] == goal[a][b] {
        assert InRange(rs, a, b);
      }
    }
  }

  class Policy {
    var policyType: string
    var description: Option<string>
    var resources: Option<Resources>
    var roles: Option<seq<string>>
    var subjects: Option<Subjects>

    constructor (spec: Params)
      ensures Spec() == spec
    {
      policyType, description := spec.policyType, spec.description;
      resources, roles, subjects := spec.resources, spec.roles, spec.subjects;
    }

    ghost function Spec(): Params
      reads this
    {
      Params(policyType, description, resources, roles, subjects)
    }

    /** Writes one cell of the resources. */
    method SetCell(i: nat, j: nat, a: Attribute)
      requires resources.Some? && InRange(resources.value, i, j)
      modifies this`resources
      ensures resources == Some(old(resources).value[i := old(resources).value[i][j := a]])
    {
      resources := Some(resources.value[i := resources.value[i][j := a]]);
    }

    method FillResources(obs: Resources) returns (outcome: Outcome)
      requires resources.Some?
      modifies this`resources
      ensures outcome.Returned? <==> FillSafe(old(resources).value, obs)
      ensures outcome.Returned? ==> resources == Some(FillAll(old(resources).value, obs))
    {
      ghost var rs := resources.value;
      ghost var goal := FillAll(rs, obs);
      var i := 0;
      while i < |resources.value|
        invariant 0 <= i <= |rs| && resources.Some? && Between(resources.value, rs, goal, i, 0)
        invariant forall a, b :: InRange(rs, a, b) && a < i && !Complete(rs[a][b]) ==> InRange(obs, a, b)
        decreases |rs| - i
      {
        var j := 0;
        while j < |resources.value[i]|
          invariant 0 <= j <= |rs[i]| && resources.Some? && Between(resources.value, rs, goal, i, j)
          invariant forall a, b :: InRange(rs, a, b) && (a < i || (a == i && b < j)) && !Complete(rs[a][b]) ==> InRange(obs, a, b)
          decreases |rs[i]| - j
        {
          assert InRange(rs, i, j);
          var attr := resources.value[i][j];
          var cell := attr;
          if attr.name.None? {
            if i >= |obs| || j >= |obs[i]| {
              return Panicked;
            }
            cell := cell.(name := obs[i][j].name);
          }
          if attr.value.None? {
            if i >= |obs| || j >= |obs[i]| {
              return Panicked;
            }
            cell := cell.(value := obs[i][j].value);
          }
          if attr.operator.None? {
            if i >= |obs| || j >= |obs[i]| {
              return Panicked;
            }
            cell := cell.(operator := obs[i][j].operator);
          }
          BetweenStep(resources.value, rs, goal, i, j, resources.value[i := resources.value[i][j := cell]]);
          SetCell(i, j, cell);
          j := j + 1;
        }
        BetweenRow(resources.value, rs, goal, i);
        i := i + 1;
      }
      BetweenDone(resources.value, rs, goal);
      return Returned;
    }

    method FillRoleIDs(obs: seq<Option<string>>) returns (outcome: Outcome)
      requires roles.Some?
      modifies this`roles
      ensures outcome.Returned? <==> RolesSafe(old(roles).value, obs)
      ensures outcome.Returned? ==> roles == Some(FillRoles(old(roles).value, obs))
    {
      ghost var rs := roles.value;
      ghost var goal := FillRoles(rs, obs);
      var i := 0;
      while i < |roles.value|
        invariant 0 <= i <= |rs| && roles.Some?
        invariant |roles.value| == |rs|
        invariant forall k :: 0 <= k < |rs| ==> roles.value[k] == if k < i then goal[k] else rs[k]
        invariant forall k :: 0 <= k < i && rs[k] == "" ==> k < |obs|
        decreases |rs| - i
      {
        if roles.value[i] == "" {
          if i >= |obs| {
            return Panicked;
          }
          roles := Some(roles.value[i := FromPtrValue(obs[i])]);
        }
        i := i + 1;
      }
      assert roles.value == goal;
      return Returned;
    }

    /** The loop over the subjects, as written: its targets are cells of the resources. */
    method FillSubjects(obs: Resources) returns (outcome: Outcome)
      requires resources.Some? && subjects.Some?
      modifies this`resources
      ensures outcome.Returned? <==> OverwriteSafe(old(resources).value, subjects.value, obs)
      ensures outcome.Returned? ==> resources == Some(OverwriteAll(old(resources).value, subjects.value, obs))
    {
      ghost var rs := resources.value;
      ghost var goal := OverwriteAll(rs, subjects.value, obs);
      var i := 0;
      while i < |subjects.value|
        invariant 0 <= i <= |subjects.value| && resources.Some? && Between(resources.value, rs, goal, i, 0)
        invariant forall a, b :: InRange(subjects.value, a, b) && a < i && !CompleteSubject(subjects.value[a][b]) ==>
                    InRange(rs, a, b) && InRange(obs, a, b)
      {
        var j := 0;
        while j < |subjects.value[i]|
          invariant 0 <= j <= |subjects.value[i]| && resources.Some? && Between(resources.value, rs, goal, i, j)
          invariant forall a, b ::
            InRange(subjects.value, a, b) && (a < i || (a == i && b < j)) && !CompleteSubject(subjects.value[a][b]) ==>
              InRange(rs, a, b) && InRange(obs, a, b)
        {
          var attr := subjects.value[i][j];
          assert InRange(subjects.value, i, j);
          if attr.name.None? || attr.value.None? {
            if i >= |resources.value| || j >= |resources.value[i]| || i >= |obs| || j >= |obs[i]| {
              return Panicked;
            }
            assert InRange(rs, i, j);
            var cell := resources.value[i][j];
            if attr.name.None? {
              cell := cell.(name := obs[i][j].name);
            }
            if attr.value.None? {
              cell := cell.(value := obs[i][j].value);
            }
            BetweenStep(resources.value, rs, goal, i, j, resources.value[i := resources.value[i][j := cell]]);
            SetCell(i, j, cell);
          } else {
            Untouched(resources.value, rs, goal, i, j);
          }
          j := j + 1;
        }
        RowPastSubjects(resources.value, rs, subjects.value, obs, i);
        i := i + 1;
      }
      RowsPastSubjects(resources.value, rs, subjects.value, obs);
      return Returned;
    }

    /** Nil lists are replaced before the loop that goes over them. */
    method LateInitializeSpec(d: SDKPolicy) returns (outcome: Outcome)
      modifies this
      ensures outcome.Returned? <==> LateSafe(old(Spec()), d)
      ensures outcome.Returned? ==> Spec() == LateInit(old(Spec()), d)
    {
      ghost var p := Spec();
      if description.None? {
        description := d.description;
      }
      if resources.None? {
        var o := GenerateCRResources(d.resources);
        resources := Some(o);
      }
      assert resources.value == GivenResources(p, d);
      outcome := FillResources(d.resources);
      if outcome.Panicked? {
        return;
      }
      if roles.None? {
        var o := GenerateCRRoles(d.roles);
        roles := Some(o);
      }
      outcome := FillRoleIDs(d.roles);
      if outcome.Panicked? {
        return;
      }
      if subjects.None? {
        var o := GenerateCRSubjects(d.subjects);
        subjects := Some(o);
      }
      SameShapeSafe(GivenResources(p, d), resources.value, subjects.value, d.resources);
      outcome := FillSubjects(d.resources);
      if outcome.Panicked? {
        return;
      }
      if policyType == "" {
        policyType := FromPtrValue(d.policyType);
      }
    }
  }

  lemma Untouched(r: Resources, rs: Resources, goal: Resources, i: nat, j: nat)
    requires Between(r, rs, goal, i, j) && (InRange(rs, i, j) ==> goal[i][j] == rs[i][j])
    ensures Between(r, rs, goal, i, j + 1)
  {
  }

  /** Cells beyond the subjects are left alone. */
  lemma RowPastSubjects(r: Resources, rs: Resources, subjects: Subjects, obs: Resources, i: nat)
    requires i < |subjects| && Between(r, rs, OverwriteAll(rs, subjects, obs), i, |subjects[i]|)
    ensures Between(r, rs, OverwriteAll(rs, subjects, obs), i + 1, 0)
  {
    var goal := OverwriteAll(rs, subjects, obs);
    forall b | InRange(rs, i, b) && b >= |subjects[i]| ensures goal[i][b] == rs[i][b] {
      assert !InRange(subjects, i, b);
    }
  }

  lemma RowsPastSubjects(r: Resources, rs: Resources, subjects: Subjects, obs: Resources)
    requires Between(r, rs, OverwriteAll(rs, subjects, obs), |subjects|, 0)
    ensures r == OverwriteAll(rs, subjects, obs)
  {
    var goal := OverwriteAll(rs, subjects, obs);
    forall a | 0 <= a < |rs| ensures r[a] == goal[a] {
      forall b | 0 <= b < |rs[a]| ensures r[a][b] == goal[a][b] {
        assert InRange(rs, a, b);
        assert a >= |subjects| ==> !InRange(subjects, a, b);
      }
    }
  }

  lemma SameShapeSafe(rs: Resources, r: Resources, subjects: Subjects, obs: Resources)
    requires |r| == |rs| && forall i :: 0 <= i < |rs| ==> |r[i]| == |rs[i]|
    ensures OverwriteSafe(rs, subjects, obs) <==> OverwriteSafe(r, subjects, obs)
  {
    assert forall i, j :: InRange(rs, i, j) <==> InRange(r, i, j);
  }
}
