/** The permission evaluator and the role/permission administration
    (StudentCoreWebApi/Repository/PermissionRepository.cs).
    Queries are functions of the tables; the three mutating operations are
    methods of `PermissionRepository`, each gated on the caller holding the
    "ManagePermissions" permission. */
module Permissions {
  import opened Common
  import opened Entities
  import opened Dtos
  import opened Store

  const ManagePermissions := "ManagePermissions"
  const AccessDenied := "Access denied. Missing permission: ManagePermissions"

  /** Some Permissions row with id `pid` is named `name`. */
  predicate IsNamed(permissions: seq<Permission>, pid: Guid, name: string)
  {
    exists p :: p in permissions && p.id == pid && p.name == name
  }

  /** Some row of `rolePermissions` grants one of `roleIds` a permission named `name`. */
  function AnyGrant(rolePermissions: seq<RolePermission>, roleIds: seq<Guid>,
                    permissions: seq<Permission>, name: string): (b: bool)
    ensures b <==> exists rp :: rp in rolePermissions && rp.roleId in roleIds && IsNamed(permissions, rp.permissionId, name)
  {
    if rolePermissions == [] then false
    else
      assert rolePermissions == [rolePermissions[0]] + rolePermissions[1..];
      (rolePermissions[0].roleId in roleIds && IsNamed(permissions, rolePermissions[0].permissionId, name))
      || AnyGrant(rolePermissions[1..], roleIds, permissions, name)
  }

  /** HasPermissionAsync: the user holds a role that is granted a permission
      whose name is exactly `permissionName`. */
  function HasPermission(t: Tables, userId: Guid, permissionName: string): (b: bool)
    ensures b <==> exists ur, rp, p ::
      && ur in t.usersRoles && rp in t.rolePermissions && p in t.permissions
      && ur.userId == userId && rp.roleId == ur.roleId
      && rp.permissionId == p.id && p.name == permissionName
  {
    AnyGrant(t.rolePermissions, RoleIdsOf(t.usersRoles, userId), t.permissions, permissionName)
  }

  /** A user without UsersRoles rows holds no permission: the answer is
      false, not an error. */
  lemma NoRolesNoPermission(t: Tables, userId: Guid, permissionName: string)
    requires forall ur :: ur in t.usersRoles ==> ur.userId != userId
    ensures !HasPermission(t, userId, permissionName)
  {
  }

  /** A name that no Permissions row carries is held by nobody. */
  lemma UnknownPermissionNeverHeld(t: Tables, userId: Guid, permissionName: string)
    requires forall p :: p in t.permissions ==> p.name != permissionName
    ensures !HasPermission(t, userId, permissionName)
  {
  }

  /** The Roles table, and so the soft-delete flag, plays no part in the
      decision: a user whose only role was soft-deleted keeps its permissions. */
  lemma HasPermissionIgnoresRoles(t: Tables, roles: seq<Role>, userId: Guid, permissionName: string)
    ensures HasPermission(t.(roles := roles), userId, permissionName) == HasPermission(t, userId, permissionName)
  {
  }

  /** The Permissions rows whose id is `pid`, in table order: the inner side
      of a join on the permission id. */
  function PermissionsWithId(permissions: seq<Permission>, pid: Guid): (r: seq<Permission>)
    ensures forall p :: p in r <==> p in permissions && p.id == pid
  {
    if permissions == [] then []
    else
      assert permissions == [permissions[0]] + permissions[1..];
      (if permissions[0].id == pid then [permissions[0]] else []) + PermissionsWithId(permissions[1..], pid)
  }

  function NamesOf(permissions: seq<Permission>): seq<string>
  {
    seq(|permissions|, k requires 0 <= k < |permissions| => permissions[k].name)
  }

  /** RolePermissions.Where(RoleId == roleId) joined with Permissions on the
      permission id, projected to the permission name. */
  function PermissionNamesOfRole(rolePermissions: seq<RolePermission>, permissions: seq<Permission>,
                                 roleId: Guid): (names: seq<string>)
    ensures forall n :: n in names <==> exists rp, p ::
      rp in rolePermissions && p in permissions && rp.roleId == roleId && p.id == rp.permissionId && p.name == n
  {
    if rolePermissions == [] then []
    else
      var rp := rolePermissions[0];
      assert rolePermissions == [rp] + rolePermissions[1..];
      var here := if rp.roleId == roleId then NamesOf(PermissionsWithId(permissions, rp.permissionId)) else [];
      assert forall n :: n in here <==> exists p :: p in permissions && rp.roleId == roleId && p.id == rp.permissionId && p.name == n by {
        forall n ensures n in here <==> exists p :: p in permissions && rp.roleId == roleId && p.id == rp.permissionId && p.name == n {
          if rp.roleId == roleId {
            var ps := PermissionsWithId(permissions, rp.permissionId);
            if n in here {
              var k :| 0 <= k < |ps| && here[k] == n;
              assert ps[k] in ps;
            }
            if exists p :: p in permissions && p.id == rp.permissionId && p.name == n {
              var p :| p in permissions && p.id == rp.permissionId && p.name == n;
              var k :| 0 <= k < |ps| && ps[k] == p;
              assert here[k] == n;
            }
          }
        }
      }
      here + PermissionNamesOfRole(rolePermissions[1..], permissions, roleId)
  }

  /** GetPermissionsByRoleAsync: always succeeds; one name per row of the
      role whose permission exists, an empty list when there is none. */
  function GetPermissionsByRole(t: Tables, roleId: Guid): (r: ApiResponse<seq<string>>)
    ensures r.success && r.message == "Permissions retrieved successfully" && r.data.Some?
    ensures forall n :: n in r.data.value <==> exists rp, p ::
      rp in t.rolePermissions && p in t.permissions && rp.roleId == roleId && p.id == rp.permissionId && p.name == n
  {
    ApiResponse(true, "Permissions retrieved successfully", Some(PermissionNamesOfRole(t.rolePermissions, t.permissions, roleId)))
  }

  function PermissionKeyed(g: Guid): Permission -> bool
  {
    (p: Permission) => p.id == g
  }

  /** The Permissions row keyed `pid`: the first in table order, or None. */
  function PermissionWithKey(permissions: seq<Permission>, pid: Guid): (r: Option<Permission>)
    ensures r.None? <==> forall k :: 0 <= k < |permissions| ==> permissions[k].id != pid
    ensures r.Some? ==> r.value in permissions && r.value.id == pid
  {
    match FirstIndex(permissions, PermissionKeyed(pid))
    case None => None
    case Some(j) => Some(permissions[j])
  }

  lemma UniquePermissionTail(ps: seq<Permission>)
    requires ps != [] && UniquePermissionIds(ps)
    ensures UniquePermissionIds(ps[1..])
    ensures forall k :: 0 <= k < |ps[1..]| ==> ps[1..][k].id != ps[0].id
  {
    forall i, j | 0 <= i < |ps[1..]| && 0 <= j < |ps[1..]| && ps[1..][i].id == ps[1..][j].id
      ensures i == j
    {
      assert ps[1..][i] == ps[i + 1] && ps[1..][j] == ps[j + 1];
    }
    forall k | 0 <= k < |ps[1..]| ensures ps[1..][k].id != ps[0].id {
      assert ps[1..][k] == ps[k + 1];
    }
  }

  lemma PermissionWithKeyTail(ps: seq<Permission>, pid: Guid)
    requires ps != [] && ps[0].id != pid
    ensures PermissionWithKey(ps, pid) == PermissionWithKey(ps[1..], pid)
  {
    match FirstIndex(ps[1..], PermissionKeyed(pid))
    case None =>
    case Some(j) =>
      assert ps[1..][j] == ps[j + 1];
  }

  /** Under unique keys the join on a permission id meets at most one row:
      the one keyed `pid`. */
  lemma {:induction false} UniquePermissionJoin(ps: seq<Permission>, pid: Guid)
    requires UniquePermissionIds(ps)
    ensures PermissionsWithId(ps, pid) == match PermissionWithKey(ps, pid) case None => [] case Some(p) => [p]
  {
    if ps != [] {
      UniquePermissionTail(ps);
      UniquePermissionJoin(ps[1..], pid);
      if ps[0].id == pid {
        assert PermissionWithKey(ps[1..], pid).None?;
        assert PermissionWithKey(ps, pid) == Some(ps[0]);
      } else {
        PermissionWithKeyTail(ps, pid);
      }
    }
  }

  /** The RolePermissions rows of `roleId` whose permission exists: the rows
      the inner join keeps. */
  function GrantOfRole(permissions: seq<Permission>, roleId: Guid): RolePermission -> bool
  {
    (rp: RolePermission) => rp.roleId == roleId && PermissionWithKey(permissions, rp.permissionId).Some?
  }

  /** Under unique permission keys the join yields one name per kept row, in
      RolePermissions order: a permission granted twice is listed twice. */
  lemma {:induction false} PermissionNamesRowByRow(rps: seq<RolePermission>, permissions: seq<Permission>, roleId: Guid)
    requires UniquePermissionIds(permissions)
    ensures var names := PermissionNamesOfRole(rps, permissions, roleId);
            var rows := Filter(rps, GrantOfRole(permissions, roleId));
      && |names| == |rows|
      && forall k :: 0 <= k < |rows| ==> Some(names[k]) == NameOf(PermissionWithKey(permissions, rows[k].permissionId))
  {
    if rps != [] {
      var rp := rps[0];
      PermissionNamesRowByRow(rps[1..], permissions, roleId);
      NamesHead(rp, permissions, roleId);
      assert rps == [rp] + rps[1..];
      NamesStep(PermissionNamesOfRole(rps, permissions, roleId), PermissionNamesOfRole(rps[1..], permissions, roleId),
                Filter(rps, GrantOfRole(permissions, roleId)), Filter(rps[1..], GrantOfRole(permissions, roleId)),
                rp, permissions, roleId);
    }
  }

  /** The inductive step of PermissionNamesRowByRow, on plain sequences. */
  lemma NamesStep(names: seq<string>, rest: seq<string>, rows: seq<RolePermission>, restRows: seq<RolePermission>,
                  rp: RolePermission, permissions: seq<Permission>, roleId: Guid)
    requires names == (if GrantOfRole(permissions, roleId)(rp) then [PermissionWithKey(permissions, rp.permissionId).value.name] else []) + rest
    requires rows == (if GrantOfRole(permissions, roleId)(rp) then [rp] else []) + restRows
    requires |rest| == |restRows|
    requires forall k :: 0 <= k < |restRows| ==> Some(rest[k]) == NameOf(PermissionWithKey(permissions, restRows[k].permissionId))
    ensures |names| == |rows|
    ensures forall k :: 0 <= k < |rows| ==> Some(names[k]) == NameOf(PermissionWithKey(permissions, rows[k].permissionId))
  {
    if GrantOfRole(permissions, roleId)(rp) {
      forall k | 0 <= k < |rows|
        ensures Some(names[k]) == NameOf(PermissionWithKey(permissions, rows[k].permissionId))
      {
        if k > 0 {
          assert names[k] == rest[k - 1] && rows[k] == restRows[k - 1];
        }
      }
    } else {
      assert names == rest && rows == restRows;
    }
  }

  /** Under unique keys one RolePermissions row of the role contributes at
      most one name. */
  lemma NamesHead(rp: RolePermission, permissions: seq<Permission>, roleId: Guid)
    requires UniquePermissionIds(permissions)
    ensures (if rp.roleId == roleId then NamesOf(PermissionsWithId(permissions, rp.permissionId)) else [])
      == if GrantOfRole(permissions, roleId)(rp) then [PermissionWithKey(permissions, rp.permissionId).value.name] else []
  {
    UniquePermissionJoin(permissions, rp.permissionId);
    assert NamesOf([]) == [];
    match PermissionWithKey(permissions, rp.permissionId)
    case None =>
    case Some(p) =>
      assert NamesOf([p]) == [p.name];
  }

  /** The name of an optional permission. */
  function NameOf(p: Option<Permission>): Option<string>
  {
    match p
    case None => None
    case Some(q) => Some(q.name)
  }

  /** GetPermissionsByRoleAsync row by row: with unique Permissions keys the
      list has one entry per RolePermissions row of the role whose permission
      exists, in table order, and entry k is that row's permission name. */
  lemma PermissionsByRoleRows(t: Tables, roleId: Guid)
    requires UniquePermissionIds(t.permissions)
    ensures var names := GetPermissionsByRole(t, roleId).data.value;
            var rows := Filter(t.rolePermissions, GrantOfRole(t.permissions, roleId));
      && |names| == |rows|
      && forall k :: 0 <= k < |rows| ==> Some(names[k]) == NameOf(PermissionWithKey(t.permissions, rows[k].permissionId))
  {
    PermissionNamesRowByRow(t.rolePermissions, t.permissions, roleId);
  }

  /** The DTO the join builds from one RolePermissions row, its role and its permission. */
  function JoinedDto(rp: RolePermission, ro: Role, p: Permission): RolePermissionDto
  {
    RolePermissionDto(rp.id, ro.id, ro.name, p.id, p.name)
  }

  /** The joined rows of `rp` with every role of `ros` and every permission of `ps`. */
  function DtosFor(rp: RolePermission, ros: seq<Role>, ps: seq<Permission>): (r: seq<RolePermissionDto>)
    ensures forall d :: d in r <==> exists ro, p :: ro in ros && p in ps && d == JoinedDto(rp, ro, p)
  {
    if ros == [] then []
    else
      var ro := ros[0];
      assert ros == [ro] + ros[1..];
      var here := seq(|ps|, k requires 0 <= k < |ps| => JoinedDto(rp, ro, ps[k]));
      assert forall d :: d in here <==> exists p :: p in ps && d == JoinedDto(rp, ro, p) by {
        forall d ensures d in here <==> exists p :: p in ps && d == JoinedDto(rp, ro, p) {
          if exists p :: p in ps && d == JoinedDto(rp, ro, p) {
            var p :| p in ps && d == JoinedDto(rp, ro, p);
            var k :| 0 <= k < |ps| && ps[k] == p;
            assert here[k] == d;
          }
        }
      }
      here + DtosFor(rp, ros[1..], ps)
  }

  /** RolePermissions ⋈ Roles ⋈ Permissions, in RolePermissions order. */
  function JoinRolePermissions(rps: seq<RolePermission>, roles: seq<Role>, ps: seq<Permission>): (r: seq<RolePermissionDto>)
    ensures forall d :: d in r <==> exists rp, ro, p ::
      rp in rps && ro in roles && p in ps && ro.id == rp.roleId && p.id == rp.permissionId && d == JoinedDto(rp, ro, p)
  {
    if rps == [] then []
    else
      assert rps == [rps[0]] + rps[1..];
      DtosFor(rps[0], RolesWithId(roles, rps[0].roleId), PermissionsWithId(ps, rps[0].permissionId))
      + JoinRolePermissions(rps[1..], roles, ps)
  }

  /** GetAllRolePermissionsAsync: an inner join; exactly the rows whose role
      and permission both exist appear, carrying their ids and names. */
  function GetAllRolePermissions(t: Tables): (r: ApiResponse<seq<RolePermissionDto>>)
    ensures r.success && r.message == "Role-permission mappings retrieved successfully" && r.data.Some?
    ensures forall d :: d in r.data.value <==> exists rp, ro, p ::
      && rp in t.rolePermissions && ro in t.roles && p in t.permissions
      && ro.id == rp.roleId && p.id == rp.permissionId
      && d == RolePermissionDto(rp.id, ro.id, ro.name, p.id, p.name)
  {
    ApiResponse(true, "Role-permission mappings retrieved successfully",
                Some(JoinRolePermissions(t.rolePermissions, t.roles, t.permissions)))
  }

  /** The RolePermissions rows whose role and permission both exist: the
      rows the two inner joins keep. */
  function JoinsBoth(roles: seq<Role>, ps: seq<Permission>): RolePermission -> bool
  {
    (rp: RolePermission) => RoleWithKey(roles, rp.roleId).Some? && PermissionWithKey(ps, rp.permissionId).Some?
  }

  /** The DTO the join builds from a kept row. */
  function JoinedRow(rp: RolePermission, roles: seq<Role>, ps: seq<Permission>): (d: Option<RolePermissionDto>)
    ensures d.Some? <==> JoinsBoth(roles, ps)(rp)
  {
    match (RoleWithKey(roles, rp.roleId), PermissionWithKey(ps, rp.permissionId))
    case (Some(ro), Some(p)) => Some(JoinedDto(rp, ro, p))
    case _ => None
  }

  lemma DtosForSingles(rp: RolePermission, ros: seq<Role>, ps: seq<Permission>)
    requires |ros| <= 1 && |ps| <= 1
    ensures DtosFor(rp, ros, ps) == if ros != [] && ps != [] then [JoinedDto(rp, ros[0], ps[0])] else []
  {
    if ros != [] {
      assert ros[1..] == [];
    }
  }

  /** Under unique keys one RolePermissions row joins to at most one DTO. */
  lemma JoinHead(rp: RolePermission, roles: seq<Role>, ps: seq<Permission>)
    requires UniqueRoleIds(roles) && UniquePermissionIds(ps)
    ensures DtosFor(rp, RolesWithId(roles, rp.roleId), PermissionsWithId(ps, rp.permissionId))
      == if JoinsBoth(roles, ps)(rp) then [JoinedRow(rp, roles, ps).value] else []
  {
    UniqueRoleJoin(roles, rp.roleId);
    UniquePermissionJoin(ps, rp.permissionId);
    DtosForSingles(rp, RolesWithId(roles, rp.roleId), PermissionsWithId(ps, rp.permissionId));
  }

  /** Under unique Roles and Permissions keys the join yields one DTO per
      kept RolePermissions row, in table order. */
  lemma {:induction false} JoinRowByRow(rps: seq<RolePermission>, roles: seq<Role>, ps: seq<Permission>)
    requires UniqueRoleIds(roles) && UniquePermissionIds(ps)
    ensures var ds := JoinRolePermissions(rps, roles, ps);
            var rows := Filter(rps, JoinsBoth(roles, ps));
      && |ds| == |rows|
      && forall k :: 0 <= k < |rows| ==> Some(ds[k]) == JoinedRow(rows[k], roles, ps)
  {
    if rps != [] {
      var rp := rps[0];
      JoinRowByRow(rps[1..], roles, ps);
      JoinHead(rp, roles, ps);
      var ds := JoinRolePermissions(rps, roles, ps);
      var rest := JoinRolePermissions(rps[1..], roles, ps);
      var rows := Filter(rps, JoinsBoth(roles, ps));
      var restRows := Filter(rps[1..], JoinsBoth(roles, ps));
      if JoinsBoth(roles, ps)(rp) {
        assert ds == [JoinedRow(rp, roles, ps).value] + rest;
        assert rows == [rp] + restRows;
        forall k | 0 <= k < |rows| ensures Some(ds[k]) == JoinedRow(rows[k], roles, ps) {
          if k > 0 {
            assert ds[k] == rest[k - 1] && rows[k] == restRows[k - 1];
          }
        }
      } else {
        assert ds == rest;
        assert rows == restRows;
      }
    }
  }

  /** GetAllRolePermissionsAsync row by row: with unique keys the list has
      one DTO per RolePermissions row whose role and permission exist, in
      table order, built from that row, its role and its permission. */
  lemma AllRolePermissionsRows(t: Tables)
    requires UniqueRoleIds(t.roles) && UniquePermissionIds(t.permissions)
    ensures var ds := GetAllRolePermissions(t).data.value;
            var rows := Filter(t.rolePermissions, JoinsBoth(t.roles, t.permissions));
      && |ds| == |rows|
      && forall k :: 0 <= k < |rows| ==> Some(ds[k]) == JoinedRow(rows[k], t.roles, t.permissions)
  {
    JoinRowByRow(t.rolePermissions, t.roles, t.permissions);
  }

  /** Matches the RolePermissions rows pairing `roleId` with `permissionId`. */
  function GrantOf(roleId: Guid, permissionId: Guid): RolePermission -> bool
  {
    (rp: RolePermission) => rp.roleId == roleId && rp.permissionId == permissionId
  }

  /** `row` grants `permissionId` to `roleId` under a key at or above `bound`. */
  ghost predicate GrantRow(row: RolePermission, roleId: Guid, permissionId: Guid, bound: Guid)
  {
    row.roleId == roleId && row.permissionId == permissionId && bound <= row.id
  }

  /** `after` is the RolePermissions table of `t` followed by one row per
      entry of `permissionIds`, in order, each granting that permission to
      `roleId` under a key no row of `t` uses. */
  ghost predicate AppendsGrants(t: Tables, after: seq<RolePermission>, roleId: Guid, permissionIds: seq<Guid>)
  {
    var n := |t.rolePermissions|;
    && |after| == n + |permissionIds|
    && after[..n] == t.rolePermissions
    && forall k :: 0 <= k < |permissionIds| ==>
         && after[n + k].roleId == roleId
         && after[n + k].permissionId == permissionIds[k]
         && t.IdUnused(after[n + k].id)
  }

  lemma AppendedGrantsAreFresh(t: Tables, bound: Guid, added: seq<RolePermission>, roleId: Guid, permissionIds: seq<Guid>)
    requires t.KeysBelow(bound) && |added| == |permissionIds|
    requires forall k :: 0 <= k < |added| ==> GrantRow(added[k], roleId, permissionIds[k], bound)
    ensures AppendsGrants(t, t.rolePermissions + added, roleId, permissionIds)
  {
    var after := t.rolePermissions + added;
    var n := |t.rolePermissions|;
    assert after[..n] == t.rolePermissions;
    forall k | 0 <= k < |permissionIds|
      ensures after[n + k] == added[k] && t.IdUnused(added[k].id)
    {
      assert GrantRow(added[k], roleId, permissionIds[k], bound);
      AboveBoundUnused(t, bound, added[k].id);
    }
  }

  class PermissionRepository {
    const db: IdentityStore

    constructor (db: IdentityStore)
      ensures this.db == db
    {
      this.db := db;
    }

    /** CreatePermissionAsync: the caller's id is replaced by a fresh one and
        exactly one Permissions row is added. */
    method CreatePermission(userId: Guid, permission: Permission) returns (r: ApiResponse<Permission>)
      requires db.Valid()
      modifies db
      ensures db.Valid()
      ensures !HasPermission(old(db.Snapshot()), userId, ManagePermissions) ==>
        r == Failure(AccessDenied) && db.Snapshot() == old(db.Snapshot())
      ensures HasPermission(old(db.Snapshot()), userId, ManagePermissions) ==>
        && r.success && r.message == "Permission created successfully" && r.data.Some?
        && r.data.value.name == permission.name
        && old(db.Snapshot()).IdUnused(r.data.value.id)
        && db.Snapshot() == old(db.Snapshot()).(permissions := old(db.permissions) + [r.data.value])
    {
      if !HasPermission(db.Snapshot(), userId, ManagePermissions) {
        return Failure(AccessDenied);
      }
      var id := db.NewGuid();
      var created := permission.(id := id);
      db.InsertPermission(created);
      r := ApiResponse(true, "Permission created successfully", Some(created));
    }

    /** AssignPermissionsToRoleAsync: one new row per listed permission id,
        in list order and repeats included; neither duplicates nor the
        existence of the role or permission are checked. */
    method AssignPermissionsToRole(userId: Guid, roleId: Guid, permissionIds: seq<Guid>) returns (r: ApiResponse<string>)
      requires db.Valid()
      modifies db
      ensures db.Valid()
      ensures !HasPermission(old(db.Snapshot()), userId, ManagePermissions) ==>
        r == Failure(AccessDenied) && db.Snapshot() == old(db.Snapshot())
      ensures HasPermission(old(db.Snapshot()), userId, ManagePermissions) ==>
        && r == ApiResponse(true, "Permissions assigned to role successfully.", None)
        && db.Snapshot() == old(db.Snapshot()).(rolePermissions := db.rolePermissions)
        && AppendsGrants(old(db.Snapshot()), db.rolePermissions, roleId, permissionIds)
    {
      if !HasPermission(db.Snapshot(), userId, ManagePermissions) {
        return Failure(AccessDenied);
      }
      AddGrants(roleId, permissionIds);
      r := ApiResponse(true, "Permissions assigned to role successfully.", None);
    }

    /** The loop of AssignPermissionsToRoleAsync: adds one row per listed
        permission id under a fresh key. */
    method AddGrants(roleId: Guid, permissionIds: seq<Guid>)
      requires db.Valid()
      modifies db
      ensures db.Valid()
      ensures db.Snapshot() == old(db.Snapshot()).(rolePermissions := db.rolePermissions)
      ensures AppendsGrants(old(db.Snapshot()), db.rolePermissions, roleId, permissionIds)
    {
      var i := 0;
      ghost var added: seq<RolePermission> := [];
      while i < |permissionIds|
        invariant 0 <= i <= |permissionIds| && |added| == i
        invariant db.Valid() && old(db.nextGuid) <= db.nextGuid
        invariant db.Snapshot() == old(db.Snapshot()).(rolePermissions := old(db.rolePermissions) + added)
        invariant forall k :: 0 <= k < i ==> GrantRow(added[k], roleId, permissionIds[k], old(db.nextGuid))
      {
        var id := db.NewGuid();
        var row := RolePermission(id, roleId, permissionIds[i]);
        db.InsertRolePermission(row);
        added := added + [row];
        i := i + 1;
      }
      AppendedGrantsAreFresh(old(db.Snapshot()), old(db.nextGuid), added, roleId, permissionIds);
    }

    /** RemovePermissionFromRoleAsync: fails without change when no row pairs
        the role with the permission; otherwise removes exactly one such row
        (the first in table order). */
    method RemovePermissionFromRole(userId: Guid, roleId: Guid, permissionId: Guid) returns (r: ApiResponse<string>)
      requires db.Valid()
      modifies db
      ensures db.Valid()
      ensures !HasPermission(old(db.Snapshot()), userId, ManagePermissions) ==>
        r == Failure(AccessDenied) && db.Snapshot() == old(db.Snapshot())
      ensures HasPermission(old(db.Snapshot()), userId, ManagePermissions) ==>
        match FirstIndex(old(db.rolePermissions), GrantOf(roleId, permissionId))
        case None =>
          r == Failure("Permission not found for this role") && db.Snapshot() == old(db.Snapshot())
        case Some(i) =>
          && r == ApiResponse(true, "Permission removed from role successfully", None)
          && db.Snapshot() == old(db.Snapshot()).(rolePermissions := old(db.rolePermissions)[..i] + old(db.rolePermissions)[i + 1..])
    {
      if !HasPermission(db.Snapshot(), userId, ManagePermissions) {
        return Failure(AccessDenied);
      }
      var found := FirstIndex(db.rolePermissions, GrantOf(roleId, permissionId));
      if found.None? {
        return Failure("Permission not found for this role");
      }
      db.RemoveRolePermissionAt(found.value);
      r := ApiResponse(true, "Permission removed from role successfully", None);
    }
  }
}
