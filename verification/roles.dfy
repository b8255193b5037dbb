/** The role hierarchy and the two authorization decorators
    (user/decorators.py).  A user's groups are given as the list of group
    names the identity store reports; both decorators are predicates over it
    and change nothing. */
module Roles {

  const TECH := "Tech"
  const LEAD := "Lead"
  const PHONE_ANALYST := "Phone Analyst"
  const MANAGER := "Manager"

  /** `ROLE_HIERARCHY.get(name, 0)`: the level of a group name, 0 for any
      name outside the hierarchy (such as "Alumni"). */
  function RoleLevel(name: string): (level: nat)
    ensures level <= 4
    ensures level == 0 <==> name !in {TECH, LEAD, PHONE_ANALYST, MANAGER}
    ensures name == MANAGER <==> level == 4
  {
    if name == TECH then 1
    else if name == LEAD then 2
    else if name == PHONE_ANALYST then 3
    else if name == MANAGER then 4
    else 0
  }

  function Max(a: nat, b: nat): nat { if a < b then b else a }

  /** The level reached after scanning `groups` from left to right: the
      reference definition of `get_user_highest_role_level`. */
  function MaxLevel(groups: seq<string>): (m: nat)
    ensures m <= 4
    ensures forall i :: 0 <= i < |groups| ==> RoleLevel(groups[i]) <= m
  {
    if |groups| == 0 then 0
    else Max(MaxLevel(groups[..|groups| - 1]), RoleLevel(groups[|groups| - 1]))
  }

  /** MaxLevel is the maximum of the levels of the groups, or 0 when no group
      has a positive level. */
  lemma {:induction false} MaxLevelIsMaximum(groups: seq<string>)
    ensures forall g :: g in groups ==> RoleLevel(g) <= MaxLevel(groups)
    ensures MaxLevel(groups) == 0 || exists g :: g in groups && RoleLevel(g) == MaxLevel(groups)
    ensures MaxLevel(groups) <= 4
  {
    if |groups| > 0 {
      var init := groups[..|groups| - 1];
      MaxLevelIsMaximum(init);
      assert groups == init + [groups[|groups| - 1]];
    }
  }

  /** The loop of `get_user_highest_role_level`: the accumulator starts at
      0 and is raised to each larger level met. */
  method HighestRoleLevel(groups: seq<string>) returns (maxLevel: nat)
    ensures maxLevel == MaxLevel(groups)
    ensures maxLevel <= 4
    ensures forall g :: g in groups ==> RoleLevel(g) <= maxLevel
    ensures maxLevel == 0 || exists g :: g in groups && RoleLevel(g) == maxLevel
  {
    maxLevel := 0;
    for i := 0 to |groups|
      invariant maxLevel == MaxLevel(groups[..i])
    {
      var level := RoleLevel(groups[i]);
      if level > maxLevel {
        maxLevel := level;
      }
      assert groups[..i + 1][..i] == groups[..i];
    }
    assert groups[..|groups|] == groups;
    MaxLevelIsMaximum(groups);
  }

  /** A user with no group in the hierarchy has level 0. */
  lemma NoRoleMeansLevelZero(groups: seq<string>)
    requires forall g :: g in groups ==> RoleLevel(g) == 0
    ensures MaxLevel(groups) == 0
  {
    MaxLevelIsMaximum(groups);
  }

  /** Adding groups never lowers the level: MaxLevel depends only on the set
      of groups and is monotone in it. */
  lemma LevelMonotone(small: seq<string>, large: seq<string>)
    requires forall g :: g in small ==> g in large
    ensures MaxLevel(small) <= MaxLevel(large)
  {
    MaxLevelIsMaximum(small);
    MaxLevelIsMaximum(large);
  }

  /** `role_required(minimumRole)`: admits the user iff its level reaches the
      level of `minimumRole` (0 for a name outside the hierarchy).  Stated
      without MaxLevel: some group of the user is at least that high, or
      the minimum is 0. */
  function RoleRequired(groups: seq<string>, minimumRole: string): (admitted: bool)
    ensures admitted <==>
              RoleLevel(minimumRole) == 0 ||
              exists g :: g in groups && RoleLevel(g) >= RoleLevel(minimumRole)
  {
    MaxLevelIsMaximum(groups);
    MaxLevel(groups) >= RoleLevel(minimumRole)
  }

  /** `role_required('Lead')` admits exactly the users holding Lead, Phone
      Analyst or Manager. */
  lemma LeadRequiredAdmits(groups: seq<string>)
    ensures RoleRequired(groups, LEAD) <==>
              LEAD in groups || PHONE_ANALYST in groups || MANAGER in groups
  {
    if RoleRequired(groups, LEAD) {
      var g :| g in groups && RoleLevel(g) >= 2;
    }
  }

  /** A minimum role outside the hierarchy admits every user. */
  lemma UnknownRoleAdmitsAll(groups: seq<string>, minimumRole: string)
    requires minimumRole !in {TECH, LEAD, PHONE_ANALYST, MANAGER}
    ensures RoleRequired(groups, minimumRole)
  {
  }

  /** The argument of `group_required`: one group name, or a list of them. */
  datatype GroupNames = One(name: string) | Many(names: seq<string>)

  /** A single name is treated as a one-element list. */
  function NameList(required: GroupNames): (names: seq<string>)
    ensures required.One? ==> names == [required.name]
    ensures required.Many? ==> names == required.names
  {
    match required
    case One(name) => [name]
    case Many(names) => names
  }

  /** `any(... for group in groups)`: some listed name is one of the user's groups. */
  function AnyMember(names: seq<string>, groups: seq<string>): (found: bool)
    ensures found <==> exists n :: n in names && n in groups
  {
    if |names| == 0 then false
    else names[0] in groups || AnyMember(names[1..], groups)
  }

  /** `group_required(required)`: exact membership in at least one of the
      listed groups; the hierarchy plays no part. */
  function GroupRequired(groups: seq<string>, required: GroupNames): (admitted: bool)
    ensures admitted <==> exists n :: n in NameList(required) && n in groups
  {
    AnyMember(NameList(required), groups)
  }

  /** The two decorators disagree: a Manager who is not in the Lead group
      passes `role_required('Lead')` and is refused by `group_required('Lead')`. */
  lemma ManagerOutsideLeadGroup()
    ensures RoleRequired([MANAGER], LEAD)
    ensures !GroupRequired([MANAGER], One(LEAD))
  {
  }

  /** A user admitted by `group_required` for one name of the hierarchy is
      admitted by `role_required` for that name. */
  lemma GroupImpliesRole(groups: seq<string>, role: string)
    requires GroupRequired(groups, One(role))
    ensures RoleRequired(groups, role)
  {
  }
}
