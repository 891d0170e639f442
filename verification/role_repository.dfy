/** Role administration (StudentCoreWebApi/Repository/RoleRepository.cs).
    Every mutating operation is gated on the caller being an admin, which
    the source decides from the FIRST role name its UsersRoles ⋈ Roles join
    yields. */
module Roles {
  import opened Common
  import opened Entities
  import opened Store

  const Admin := "Admin"

  /** The names of the Roles rows whose key is `rid`, in table order: the
      inner side of the join on the role id. */
  function RoleNamesWithId(roles: seq<Role>, rid: Guid): (names: seq<string>)
    ensures forall n :: n in names <==> exists ro :: ro in roles && ro.id == rid && ro.name == n
  {
    if roles == [] then []
    else
      assert roles == [roles[0]] + roles[1..];
      (if roles[0].id == rid then [roles[0].name] else []) + RoleNamesWithId(roles[1..], rid)
  }

  /** A role id no row carries joins no name. */
  lemma NoRoleWithId(roles: seq<Role>, rid: Guid)
    requires forall j :: 0 <= j < |roles| ==> roles[j].id != rid
    ensures RoleNamesWithId(roles, rid) == []
  {
  }

  /** UsersRoles.Where(User_Id == userId) joined with Roles on the role id,
      projected to the role name, in UsersRoles order (and Roles order
      within one row). Soft-deleted roles take part like any other. */
  function RoleNamesOf(usersRoles: seq<UserRole>, roles: seq<Role>, userId: Guid): (names: seq<string>)
    ensures forall n :: n in names <==> exists ur, ro ::
      ur in usersRoles && ro in roles && ur.userId == userId && ro.id == ur.roleId && ro.name == n
  {
    if usersRoles == [] then []
    else
      var ur := usersRoles[0];
      assert usersRoles == [ur] + usersRoles[1..];
      var here := if ur.userId == userId then RoleNamesWithId(roles, ur.roleId) else [];
      here + RoleNamesOf(usersRoles[1..], roles, userId)
  }

  /** Row `i` of UsersRoles and row `j` of Roles form the first pair the
      join yields for `userId`: no earlier UsersRoles row of the user joins
      any role, and no earlier role carries row `i`'s role id. */
  ghost predicate FirstJoinedRow(usersRoles: seq<UserRole>, roles: seq<Role>, userId: Guid, i: int, j: int)
  {
    && 0 <= i < |usersRoles| && 0 <= j < |roles|
    && usersRoles[i].userId == userId && roles[j].id == usersRoles[i].roleId
    && (forall i', j' :: 0 <= i' < i && 0 <= j' < |roles| && usersRoles[i'].userId == userId ==>
          roles[j'].id != usersRoles[i'].roleId)
    && (forall j' :: 0 <= j' < j ==> roles[j'].id != usersRoles[i].roleId)
  }

  lemma {:induction false} FirstRoleWithId(roles: seq<Role>, rid: Guid, j: nat)
    requires j < |roles| && roles[j].id == rid
    requires forall j' :: 0 <= j' < j ==> roles[j'].id != rid
    ensures RoleNamesWithId(roles, rid) != [] && RoleNamesWithId(roles, rid)[0] == roles[j].name
  {
    assert roles == [roles[0]] + roles[1..];
    if j > 0 {
      FirstRoleWithId(roles[1..], rid, j - 1);
    }
  }

  /** The first name of the join is the name of the role in its first pair. */
  lemma {:induction false} FirstJoinedName(usersRoles: seq<UserRole>, roles: seq<Role>, userId: Guid, i: nat, j: nat)
    requires FirstJoinedRow(usersRoles, roles, userId, i, j)
    ensures RoleNamesOf(usersRoles, roles, userId) != []
    ensures RoleNamesOf(usersRoles, roles, userId)[0] == roles[j].name
  {
    var ur := usersRoles[0];
    if i == 0 {
      FirstRoleWithId(roles, ur.roleId, j);
    } else {
      if ur.userId == userId {
        NoRoleWithId(roles, ur.roleId);
      }
      assert RoleNamesOf(usersRoles, roles, userId) == RoleNamesOf(usersRoles[1..], roles, userId);
      assert FirstJoinedRow(usersRoles[1..], roles, userId, i - 1, j) by {
        forall i', j' | 0 <= i' < i - 1 && 0 <= j' < |roles| && usersRoles[1..][i'].userId == userId
          ensures roles[j'].id != usersRoles[1..][i'].roleId
        {
          assert usersRoles[1..][i'] == usersRoles[i' + 1];
        }
      }
      FirstJoinedName(usersRoles[1..], roles, userId, i - 1, j);
    }
  }

  /** A join that yields anything has a first pair. */
  lemma {:induction false} SomeFirstJoinedRow(usersRoles: seq<UserRole>, roles: seq<Role>, userId: Guid)
    requires RoleNamesOf(usersRoles, roles, userId) != []
    ensures exists i, j :: FirstJoinedRow(usersRoles, roles, userId, i, j)
  {
    var ur := usersRoles[0];
    var f := FirstIndex(roles, RoleKeyed(ur.roleId));
    if ur.userId == userId && f.Some? {
      assert FirstJoinedRow(usersRoles, roles, userId, 0, f.value);
    } else {
      var rest := RoleNamesOf(usersRoles[1..], roles, userId);
      if ur.userId == userId {
        NoRoleWithId(roles, ur.roleId);
      }
      assert RoleNamesOf(usersRoles, roles, userId) == rest;
      SomeFirstJoinedRow(usersRoles[1..], roles, userId);
      var i, j :| FirstJoinedRow(usersRoles[1..], roles, userId, i, j);
      assert FirstJoinedRow(usersRoles, roles, userId, i + 1, j) by {
        forall i', j' | 0 <= i' < i + 1 && 0 <= j' < |roles| && usersRoles[i'].userId == userId
          ensures roles[j'].id != usersRoles[i'].roleId
        {
          if i' > 0 {
            assert usersRoles[i'] == usersRoles[1..][i' - 1];
          } else {
            assert !RoleKeyed(ur.roleId)(roles[j']);
          }
        }
      }
    }
  }

  /** IsUserAdminAsync: the user is an admin exactly when the first pair of
      the UsersRoles ⋈ Roles join names a role "Admin"; a later "Admin" row
      does not count, and a user without rows is no admin. */
  function IsUserAdmin(t: Tables, userId: Guid): (b: bool)
    ensures b <==> exists i, j :: FirstJoinedRow(t.usersRoles, t.roles, userId, i, j) && t.roles[j].name == Admin
  {
    var names := RoleNamesOf(t.usersRoles, t.roles, userId);
    assert names != [] && names[0] == Admin ==>
      exists i, j :: FirstJoinedRow(t.usersRoles, t.roles, userId, i, j) && t.roles[j].name == Admin
    by {
      if names != [] && names[0] == Admin {
        SomeFirstJoinedRow(t.usersRoles, t.roles, userId);
        var i, j :| FirstJoinedRow(t.usersRoles, t.roles, userId, i, j);
        FirstJoinedName(t.usersRoles, t.roles, userId, i, j);
      }
    }
    assert (exists i, j :: FirstJoinedRow(t.usersRoles, t.roles, userId, i, j) && t.roles[j].name == Admin) ==>
      names != [] && names[0] == Admin
    by {
      if exists i, j :: FirstJoinedRow(t.usersRoles, t.roles, userId, i, j) && t.roles[j].name == Admin {
        var i, j :| FirstJoinedRow(t.usersRoles, t.roles, userId, i, j) && t.roles[j].name == Admin;
        FirstJoinedName(t.usersRoles, t.roles, userId, i, j);
      }
    }
    names != [] && names[0] == Admin
  }

  /** A user without UsersRoles rows is refused every admin operation. */
  lemma NoRolesNoAdmin(t: Tables, userId: Guid)
    requires forall ur :: ur in t.usersRoles ==> ur.userId != userId
    ensures !IsUserAdmin(t, userId)
  {
  }

  /** The join reads only ids and names of roles: two role tables that
      agree on those give the same names. */
  lemma {:induction false} RoleNamesOfIgnoreFlags(usersRoles: seq<UserRole>, roles: seq<Role>, roles': seq<Role>, userId: Guid)
    requires |roles'| == |roles|
    requires forall k :: 0 <= k < |roles| ==> roles'[k].id == roles[k].id && roles'[k].name == roles[k].name
    ensures RoleNamesOf(usersRoles, roles', userId) == RoleNamesOf(usersRoles, roles, userId)
  {
    if usersRoles != [] {
      RoleNamesWithIdIgnoreFlags(roles, roles', usersRoles[0].roleId);
      RoleNamesOfIgnoreFlags(usersRoles[1..], roles, roles', userId);
    }
  }

  lemma {:induction false} RoleNamesWithIdIgnoreFlags(roles: seq<Role>, roles': seq<Role>, rid: Guid)
    requires |roles'| == |roles|
    requires forall k :: 0 <= k < |roles| ==> roles'[k].id == roles[k].id && roles'[k].name == roles[k].name
    ensures RoleNamesWithId(roles', rid) == RoleNamesWithId(roles, rid)
  {
    if roles != [] {
      RoleNamesWithIdIgnoreFlags(roles[1..], roles'[1..], rid);
    }
  }

  /** Soft-deleting a role leaves admin rights untouched: a user whose first
      joined role is a deleted "Admin" role is still an admin. */
  lemma SoftDeleteKeepsAdmin(t: Tables, k: nat, userId: Guid)
    requires k < |t.roles|
    ensures IsUserAdmin(t.(roles := t.roles[k := t.roles[k].(isDeleted := true)]), userId) == IsUserAdmin(t, userId)
  {
    RoleNamesOfIgnoreFlags(t.usersRoles, t.roles, t.roles[k := t.roles[k].(isDeleted := true)], userId);
  }

  /** GetRolesAsync: every role, soft-deleted ones included, in table order. */
  function GetRoles(t: Tables): (r: seq<Role>)
    ensures |r| == |t.roles|
    ensures forall k :: 0 <= k < |r| ==> r[k] == t.roles[k]
  {
    t.roles
  }

  /** GetUserAssignedRoleAsync: always succeeds (the query never yields
      null); the list holds exactly the names of the roles, soft-deleted
      ones included, that UsersRoles gives the user, and its head is what
      the admin check inspects. */
  function GetUserAssignedRole(t: Tables, userId: Guid): (r: ApiResponse<seq<string>>)
    ensures r.success && r.message == "Roles fetched successfully." && r.data.Some?
    ensures forall n :: n in r.data.value <==> exists ur, ro ::
      ur in t.usersRoles && ro in t.roles && ur.userId == userId && ro.id == ur.roleId && ro.name == n
    ensures IsUserAdmin(t, userId) <==> r.data.value != [] && r.data.value[0] == Admin
  {
    ApiResponse(true, "Roles fetched successfully.", Some(RoleNamesOf(t.usersRoles, t.roles, userId)))
  }

  /** Under unique keys the join on a role id yields at most one name: that
      of the role keyed `rid`. */
  lemma {:induction false} UniqueRoleNameJoin(roles: seq<Role>, rid: Guid)
    requires UniqueRoleIds(roles)
    ensures RoleNamesWithId(roles, rid) == match RoleNameOf(roles, rid) case None => [] case Some(n) => [n]
  {
    if roles != [] {
      UniqueRoleTail(roles);
      UniqueRoleNameJoin(roles[1..], rid);
      if roles[0].id == rid {
        assert RoleWithKey(roles[1..], rid).None?;
        assert RoleWithKey(roles, rid) == Some(roles[0]);
      } else {
        RoleWithKeyTail(roles, rid);
      }
    }
  }

  /** The UsersRoles rows of `userId` whose role exists: the rows the inner
      join keeps. */
  function HeldRole(roles: seq<Role>, userId: Guid): UserRole -> bool
  {
    (ur: UserRole) => ur.userId == userId && RoleNameOf(roles, ur.roleId).Some?
  }

  /** Under unique Roles keys the join yields one name per kept UsersRoles
      row, in table order: a role held twice is listed twice. */
  lemma {:induction false} RoleNamesRowByRow(usersRoles: seq<UserRole>, roles: seq<Role>, userId: Guid)
    requires UniqueRoleIds(roles)
    ensures var names := RoleNamesOf(usersRoles, roles, userId);
            var rows := Filter(usersRoles, HeldRole(roles, userId));
      && |names| == |rows|
      && forall k :: 0 <= k < |rows| ==> Some(names[k]) == RoleNameOf(roles, rows[k].roleId)
  {
    if usersRoles != [] {
      var ur := usersRoles[0];
      RoleNamesRowByRow(usersRoles[1..], roles, userId);
      UniqueRoleNameJoin(roles, ur.roleId);
      assert usersRoles == [ur] + usersRoles[1..];
      RoleNamesStep(RoleNamesOf(usersRoles, roles, userId), RoleNamesOf(usersRoles[1..], roles, userId),
                    Filter(usersRoles, HeldRole(roles, userId)), Filter(usersRoles[1..], HeldRole(roles, userId)),
                    ur, roles, userId);
    }
  }

  /** The inductive step of RoleNamesRowByRow, on plain sequences. */
  lemma RoleNamesStep(names: seq<string>, rest: seq<string>, rows: seq<UserRole>, restRows: seq<UserRole>,
                      ur: UserRole, roles: seq<Role>, userId: Guid)
    requires names == (if HeldRole(roles, userId)(ur) then [RoleNameOf(roles, ur.roleId).value] else []) + rest
    requires rows == (if HeldRole(roles, userId)(ur) then [ur] else []) + restRows
    requires |rest| == |restRows|
    requires forall k :: 0 <= k < |restRows| ==> Some(rest[k]) == RoleNameOf(roles, restRows[k].roleId)
    ensures |names| == |rows|
    ensures forall k :: 0 <= k < |rows| ==> Some(names[k]) == RoleNameOf(roles, rows[k].roleId)
  {
    if HeldRole(roles, userId)(ur) {
      forall k | 0 <= k < |rows| ensures Some(names[k]) == RoleNameOf(roles, rows[k].roleId) {
        if k > 0 {
          assert names[k] == rest[k - 1] && rows[k] == restRows[k - 1];
        }
      }
    } else {
      assert names == rest && rows == restRows;
    }
  }

  /** GetUserAssignedRoleAsync row by row: with unique Roles keys the list
      has one name per UsersRoles row of the user whose role exists, in
      table order, and entry k is that row's role name. */
  lemma UserAssignedRoleRows(t: Tables, userId: Guid)
    requires UniqueRoleIds(t.roles)
    ensures var names := GetUserAssignedRole(t, userId).data.value;
            var rows := Filter(t.usersRoles, HeldRole(t.roles, userId));
      && |names| == |rows|
      && forall k :: 0 <= k < |rows| ==> Some(names[k]) == RoleNameOf(t.roles, rows[k].roleId)
  {
    RoleNamesRowByRow(t.usersRoles, t.roles, userId);
  }

  /** Some Users row, soft-deleted or not, has key `userId`. */
  predicate UserExists(users: seq<User>, userId: Guid)
  {
    exists k :: 0 <= k < |users| && users[k].id == userId
  }

  /** Some Roles row, soft-deleted or not, has key `roleId`. */
  predicate RoleExists(roles: seq<Role>, roleId: Guid)
  {
    exists k :: 0 <= k < |roles| && roles[k].id == roleId
  }

  /** Assigning a role the user did not hold and then removing it restores
      UsersRoles: removal takes the first matching row, which is the one
      just appended. */
  lemma {:induction false} AssignThenRemoveRestores(usersRoles: seq<UserRole>, row: UserRole)
    requires forall k :: 0 <= k < |usersRoles| ==> !Holds(row.userId, row.roleId)(usersRoles[k])
    ensures FirstIndex(usersRoles + [row], Holds(row.userId, row.roleId)) == Some(|usersRoles|)
    ensures (usersRoles + [row])[..|usersRoles|] + (usersRoles + [row])[|usersRoles| + 1..] == usersRoles
  {
    var s := usersRoles + [row];
    assert Holds(row.userId, row.roleId)(s[|usersRoles|]);
    assert forall k :: 0 <= k < |usersRoles| ==> s[k] == usersRoles[k];
    assert s[..|usersRoles|] == usersRoles;
  }

  class RoleRepository {
    const db: IdentityStore

    constructor (db: IdentityStore)
      ensures this.db == db
    {
      this.db := db;
    }

    /** CreateRoleAsync: the role is stored as given, under its own key, or
        under a fresh key when its key is Guid.Empty; a key another role
        already has makes the save throw. A null role is refused. */
    method CreateRole(userId: Guid, role: Option<Role>) returns (r: Outcome<ApiResponse<Role>>)
      requires db.Valid()
      modifies db
      ensures db.Valid()
      ensures !IsUserAdmin(old(db.Snapshot()), userId) ==>
        r == Returned(Failure("Access denied. Only Admins can create roles.")) && db.Snapshot() == old(db.Snapshot())
      ensures IsUserAdmin(old(db.Snapshot()), userId) && role.None? ==>
        r == Returned(Failure("Role cannot be null.")) && db.Snapshot() == old(db.Snapshot())
      ensures IsUserAdmin(old(db.Snapshot()), userId) && role.Some? && role.value.id != EmptyGuid
              && RoleExists(old(db.roles), role.value.id) ==>
        r == Threw(DbUpdateException) && db.Snapshot() == old(db.Snapshot())
      ensures IsUserAdmin(old(db.Snapshot()), userId) && role.Some?
              && (role.value.id == EmptyGuid || !RoleExists(old(db.roles), role.value.id)) ==>
        && r.Returned? && r.value.success && r.value.message == "Role created successfully."
        && r.value.data.Some?
        && var created := r.value.data.value;
        && created.name == role.value.name && created.isDeleted == role.value.isDeleted
        && (role.value.id != EmptyGuid ==> created.id == role.value.id)
        && (role.value.id == EmptyGuid ==> created.id != EmptyGuid && old(db.Snapshot()).IdUnused(created.id))
        && db.Snapshot() == old(db.Snapshot()).(roles := old(db.roles) + [created])
    {
      if !IsUserAdmin(db.Snapshot(), userId) {
        return Returned(Failure("Access denied. Only Admins can create roles."));
      }
      if role.None? {
        return Returned(Failure("Role cannot be null."));
      }
      var created := role.value;
      if created.id == EmptyGuid {
        var id := db.NewGuid();
        created := created.(id := id);
      } else if RoleExists(db.roles, created.id) {
        return Threw(DbUpdateException);
      }
      db.InsertRole(created);
      r := Returned(ApiResponse(true, "Role created successfully.", Some(created)));
    }

    /** UpdateRoleAsync: renames the role with key `roleId` (soft-deleted or
        not) and changes nothing else. A null role body is only dereferenced
        once the role is found, and then throws. */
    method UpdateRole(userId: Guid, roleId: Guid, role: Option<Role>) returns (r: Outcome<ApiResponse<Role>>)
      requires db.Valid()
      modifies db
      ensures db.Valid()
      ensures !IsUserAdmin(old(db.Snapshot()), userId) ==>
        r == Returned(Failure("Access denied. Only Admins can update roles.")) && db.Snapshot() == old(db.Snapshot())
      ensures IsUserAdmin(old(db.Snapshot()), userId) ==>
        match FirstIndex(old(db.roles), RoleKeyed(roleId))
        case None =>
          r == Returned(Failure("Role not found.")) && db.Snapshot() == old(db.Snapshot())
        case Some(i) =>
          if role.None? then
            r == Threw(NullReferenceException) && db.Snapshot() == old(db.Snapshot())
          else
            var updated := old(db.roles)[i].(name := role.value.name);
            && r == Returned(ApiResponse(true, "Role updated successfully.", Some(updated)))
            && db.Snapshot() == old(db.Snapshot()).(roles := old(db.roles)[i := updated])
    {
      if !IsUserAdmin(db.Snapshot(), userId) {
        return Returned(Failure("Access denied. Only Admins can update roles."));
      }
      var found := FirstIndex(db.roles, RoleKeyed(roleId));
      if found.None? {
        return Returned(Failure("Role not found."));
      }
      if role.None? {
        return Threw(NullReferenceException);
      }
      var updated := db.roles[found.value].(name := role.value.name);
      db.ReplaceRoleAt(found.value, updated);
      r := Returned(ApiResponse(true, "Role updated successfully.", Some(updated)));
    }

    /** DeleteRoleAsync: sets the soft-delete flag of a live role; a missing
        or already deleted role is refused, so deleting twice fails the
        second time. */
    method DeleteRole(userId: Guid, roleId: Guid) returns (r: ApiResponse<string>)
      requires db.Valid()
      modifies db
      ensures db.Valid()
      ensures !IsUserAdmin(old(db.Snapshot()), userId) ==>
        r == Failure("Access denied. Only Admins can delete roles.") && db.Snapshot() == old(db.Snapshot())
      ensures IsUserAdmin(old(db.Snapshot()), userId) ==>
        match FirstIndex(old(db.roles), RoleKeyed(roleId))
        case None =>
          r == Failure("Role not found or already deleted.") && db.Snapshot() == old(db.Snapshot())
        case Some(i) =>
          if old(db.roles)[i].isDeleted then
            r == Failure("Role not found or already deleted.") && db.Snapshot() == old(db.Snapshot())
          else
            && r == ApiResponse(true, "Role deleted successfully.", Some("Role soft-deleted."))
            && db.Snapshot() == old(db.Snapshot()).(roles := old(db.roles)[i := old(db.roles)[i].(isDeleted := true)])
    {
      if !IsUserAdmin(db.Snapshot(), userId) {
        return Failure("Access denied. Only Admins can delete roles.");
      }
      var found := FirstIndex(db.roles, RoleKeyed(roleId));
      if found.None? || db.roles[found.value].isDeleted {
        return Failure("Role not found or already deleted.");
      }
      db.ReplaceRoleAt(found.value, db.roles[found.value].(isDeleted := true));
      r := ApiResponse(true, "Role deleted successfully.", Some("Role soft-deleted."));
    }

    /** AssignRoleToUserAsync: adds one UsersRoles row under a fresh key when
        both the user and the role exist (deleted flags are not consulted)
        and the user does not hold the role yet. */
    method AssignRoleToUser(currentUserId: Guid, userId: Guid, roleId: Guid) returns (r: ApiResponse<string>)
      requires db.Valid()
      modifies db
      ensures db.Valid()
      ensures !IsUserAdmin(old(db.Snapshot()), currentUserId) ==>
        r == Failure("Access denied. Only Admins can assign roles.") && db.Snapshot() == old(db.Snapshot())
      ensures IsUserAdmin(old(db.Snapshot()), currentUserId)
              && !(UserExists(old(db.users), userId) && RoleExists(old(db.roles), roleId)) ==>
        r == Failure("User or Role does not exist.") && db.Snapshot() == old(db.Snapshot())
      ensures IsUserAdmin(old(db.Snapshot()), currentUserId)
              && UserExists(old(db.users), userId) && RoleExists(old(db.roles), roleId)
              && FirstIndex(old(db.usersRoles), Holds(userId, roleId)).Some? ==>
        r == Failure("Role already assigned to the user.") && db.Snapshot() == old(db.Snapshot())
      ensures IsUserAdmin(old(db.Snapshot()), currentUserId)
              && UserExists(old(db.users), userId) && RoleExists(old(db.roles), roleId)
              && FirstIndex(old(db.usersRoles), Holds(userId, roleId)).None? ==>
        && r == ApiResponse(true, "Role assigned to user successfully.", None)
        && |db.usersRoles| == |old(db.usersRoles)| + 1
        && var row := db.usersRoles[|old(db.usersRoles)|];
        && row.userId == userId && row.roleId == roleId && old(db.Snapshot()).IdUnused(row.id)
        && db.Snapshot() == old(db.Snapshot()).(usersRoles := old(db.usersRoles) + [row])
    {
      if !IsUserAdmin(db.Snapshot(), currentUserId) {
        return Failure("Access denied. Only Admins can assign roles.");
      }
      if !UserExists(db.users, userId) || !RoleExists(db.roles, roleId) {
        return Failure("User or Role does not exist.");
      }
      if FirstIndex(db.usersRoles, Holds(userId, roleId)).Some? {
        return Failure("Role already assigned to the user.");
      }
      var id := db.NewGuid();
      db.InsertUserRole(UserRole(id, userId, roleId));
      r := ApiResponse(true, "Role assigned to user successfully.", None);
    }

    /** RemoveUserRoleAsync: deletes the first UsersRoles row giving the role
        to the user. */
    method RemoveUserRole(currentUserId: Guid, userId: Guid, roleId: Guid) returns (r: ApiResponse<string>)
      requires db.Valid()
      modifies db
      ensures db.Valid()
      ensures !IsUserAdmin(old(db.Snapshot()), currentUserId) ==>
        r == Failure("Access denied. Only Admins can remove roles.") && db.Snapshot() == old(db.Snapshot())
      ensures IsUserAdmin(old(db.Snapshot()), currentUserId) ==>
        match FirstIndex(old(db.usersRoles), Holds(userId, roleId))
        case None =>
          r == Failure("Specified role is not assigned to the user.") && db.Snapshot() == old(db.Snapshot())
        case Some(i) =>
          && r == ApiResponse(true, "Specified role removed from user successfully.", None)
          && db.Snapshot() == old(db.Snapshot()).(usersRoles := old(db.usersRoles)[..i] + old(db.usersRoles)[i + 1..])
    {
      if !IsUserAdmin(db.Snapshot(), currentUserId) {
        return Failure("Access denied. Only Admins can remove roles.");
      }
      var found := FirstIndex(db.usersRoles, Holds(userId, roleId));
      if found.None? {
        return Failure("Specified role is not assigned to the user.");
      }
      db.RemoveUserRoleAt(found.value);
      r := ApiResponse(true, "Specified role removed from user successfully.", None);
    }
  }
}
