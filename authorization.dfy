/**
 * The decision of the `has_admin_role` check (main.py): the command author
 * passes as the guild owner, as a holder of the administrator permission,
 * or as a member of the role named ADMIN_ROLE. When no such role exists the
 * check tries to create it, posts a notice, and denies this call.
 */
module Authorization {
  import opened Wrappers

  const AdminRoleName := "ADMIN_ROLE"
  const CreatedNotice := "Created ADMIN_ROLE role. Please assign it to trusted users."
  const ForbiddenNotice := "Error: Bot doesn't have permission to create roles."

  /** A guild role; as in discord.py, two roles are the same role when their ids agree. */
  datatype Role = Role(id: nat, name: string)

  /** What the check reads from the command context. `owner` is None when the guild's owner is unknown. */
  datatype Invocation = Invocation(
    author: nat,
    owner: Option<nat>,
    isAdministrator: bool,
    guildRoles: seq<Role>,
    authorRoles: seq<Role>)

  /** The check's answer, and the notice it posts to the channel, if any. */
  datatype Verdict = Verdict(authorized: bool, notice: Option<string>)

  /** Role `i` is the first role of `roles` with the given name. */
  predicate IsFirstNamed(roles: seq<Role>, i: int, name: string)
  {
    0 <= i < |roles| && roles[i].name == name && forall k :: 0 <= k < i ==> roles[k].name != name
  }

  /** `discord.utils.get(roles, name=name)`: the first role with that name. */
  function FindRole(roles: seq<Role>, name: string): (r: Option<Role>)
    ensures r.None? <==> forall i :: 0 <= i < |roles| ==> roles[i].name != name
    ensures r.Some? ==> exists i :: IsFirstNamed(roles, i, name) && roles[i] == r.value
  {
    if roles == [] then None
    else if roles[0].name == name then Some(roles[0])
    else
      var r := FindRole(roles[1..], name);
      assert r.Some? ==> exists i :: IsFirstNamed(roles[1..], i, name) && roles[1..][i] == r.value;
      assert forall i :: IsFirstNamed(roles[1..], i, name) ==> IsFirstNamed(roles, i + 1, name);
      r
  }

  /** `role in roles`, which compares roles by id. */
  predicate HoldsRole(roles: seq<Role>, role: Role)
  {
    exists i :: 0 <= i < |roles| && roles[i].id == role.id
  }

  predicate IsOwner(inv: Invocation)
  {
    inv.owner == Some(inv.author)
  }

  /**
   * The predicate of `has_admin_role`, with the outcome of the role
   * creation as an input (`canCreateRole` is false when the platform
   * refuses it). A role created by the call is new, so the author does not
   * hold it and the call denies.
   */
  function Authorize(inv: Invocation, canCreateRole: bool): (v: Verdict)
    ensures IsOwner(inv) || inv.isAdministrator ==> v == Verdict(true, None)
    ensures v.authorized <==>
      || IsOwner(inv)
      || inv.isAdministrator
      || exists i :: IsFirstNamed(inv.guildRoles, i, AdminRoleName) && HoldsRole(inv.authorRoles, inv.guildRoles[i])
    ensures v.notice.Some? <==>
      !IsOwner(inv) && !inv.isAdministrator && forall i :: 0 <= i < |inv.guildRoles| ==> inv.guildRoles[i].name != AdminRoleName
    ensures v.notice.Some? ==> !v.authorized && v.notice.value == if canCreateRole then CreatedNotice else ForbiddenNotice
  {
    if IsOwner(inv) then Verdict(true, None)
    else if inv.isAdministrator then Verdict(true, None)
    else
      match FindRole(inv.guildRoles, AdminRoleName)
      case None => Verdict(false, Some(if canCreateRole then CreatedNotice else ForbiddenNotice))
      case Some(role) =>
        assert forall i, j :: IsFirstNamed(inv.guildRoles, i, AdminRoleName) && IsFirstNamed(inv.guildRoles, j, AdminRoleName) ==> i == j;
        Verdict(HoldsRole(inv.authorRoles, role), None)
  }
}
