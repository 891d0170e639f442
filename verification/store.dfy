/** The identity store: the seven tables the repositories query and
    change, each a sequence of rows in insertion order. A call's changes
    become visible when it saves them; since the model is sequential, a
    repository method assigns the tables at its commit points. */
module Store {
  import opened Common
  import opened Entities

  class IdentityStore {
    var users: seq<User>
    var roles: seq<Role>
    var permissions: seq<Permission>
    var usersRoles: seq<UserRole>
    var rolePermissions: seq<RolePermission>
    var menus: seq<Menu>
    var menuPermissions: seq<MenuPermission>
    /** The next identifier the store hands out (Guid.NewGuid and the
        store's own key generation). */
    var nextGuid: Guid

    /** The current contents of all tables. */
    function Snapshot(): Tables
      reads this
    {
      Tables(users, roles, permissions, usersRoles, rolePermissions, menus, menuPermissions)
    }

    /** Every table is keyed by its id, every id in use is below `nextGuid`,
        and Guid.Empty is never handed out. */
    ghost predicate Valid()
      reads this
    {
      EmptyGuid < nextGuid && Snapshot().KeysBelow(nextGuid) && Snapshot().UniqueKeys()
    }

    constructor ()
      ensures Valid()
      ensures Snapshot() == Tables([], [], [], [], [], [], [])
    {
      users, roles, permissions := [], [], [];
      usersRoles, rolePermissions := [], [];
      menus, menuPermissions := [], [];
      nextGuid := 1;
    }

    /** Guid.NewGuid(): an identifier that no row of any table uses. */
    method NewGuid() returns (g: Guid)
      requires Valid()
      modifies this`nextGuid
      ensures Valid()
      ensures Snapshot().IdUnused(g) && g != EmptyGuid
      ensures old(nextGuid) <= g < nextGuid
    {
      g := nextGuid;
      nextGuid := nextGuid + 1;
    }

    /** Adds one User row under an unused key. */
    method InsertUser(row: User)
      requires Valid() && Snapshot().IdUnused(row.id)
      modifies this
      ensures Valid() && old(nextGuid) <= nextGuid
      ensures Snapshot() == old(Snapshot()).(users := old(users) + [row])
    {
      users := users + [row];
      if nextGuid <= row.id {
        nextGuid := row.id + 1;
      }
    }

    /** Adds one Role row under a key no other role uses. The key may be
        one the caller chose, so only the Roles table is required to be
        free of it. */
    method InsertRole(row: Role)
      requires Valid() && forall k :: 0 <= k < |roles| ==> roles[k].id != row.id
      modifies this
      ensures Valid() && old(nextGuid) <= nextGuid
      ensures Snapshot() == old(Snapshot()).(roles := old(roles) + [row])
    {
      roles := roles + [row];
      if nextGuid <= row.id {
        nextGuid := row.id + 1;
      }
    }

    /** Adds one Permission row under an unused key. */
    method InsertPermission(row: Permission)
      requires Valid() && Snapshot().IdUnused(row.id)
      modifies this
      ensures Valid() && old(nextGuid) <= nextGuid
      ensures Snapshot() == old(Snapshot()).(permissions := old(permissions) + [row])
    {
      permissions := permissions + [row];
      if nextGuid <= row.id {
        nextGuid := row.id + 1;
      }
    }

    /** Adds one UserRole row under an unused key. */
    method InsertUserRole(row: UserRole)
      requires Valid() && Snapshot().IdUnused(row.id)
      modifies this
      ensures Valid() && old(nextGuid) <= nextGuid
      ensures Snapshot() == old(Snapshot()).(usersRoles := old(usersRoles) + [row])
    {
      usersRoles := usersRoles + [row];
      if nextGuid <= row.id {
        nextGuid := row.id + 1;
      }
    }

    /** Adds one RolePermission row under an unused key. */
    method InsertRolePermission(row: RolePermission)
      requires Valid() && Snapshot().IdUnused(row.id)
      modifies this
      ensures Valid() && old(nextGuid) <= nextGuid
      ensures Snapshot() == old(Snapshot()).(rolePermissions := old(rolePermissions) + [row])
    {
      rolePermissions := rolePermissions + [row];
      if nextGuid <= row.id {
        nextGuid := row.id + 1;
      }
    }

    /** Adds one Menu row under an unused key. */
    method InsertMenu(row: Menu)
      requires Valid() && Snapshot().IdUnused(row.id)
      modifies this
      ensures Valid() && old(nextGuid) <= nextGuid
      ensures Snapshot() == old(Snapshot()).(menus := old(menus) + [row])
    {
      menus := menus + [row];
      if nextGuid <= row.id {
        nextGuid := row.id + 1;
      }
    }

    /** Adds one MenuPermission row under an unused key. */
    method InsertMenuPermission(row: MenuPermission)
      requires Valid() && Snapshot().IdUnused(row.id)
      modifies this
      ensures Valid() && old(nextGuid) <= nextGuid
      ensures Snapshot() == old(Snapshot()).(menuPermissions := old(menuPermissions) + [row])
    {
      menuPermissions := menuPermissions + [row];
      if nextGuid <= row.id {
        nextGuid := row.id + 1;
      }
    }

    /** Deletes the row at index `i` of users. */
    method RemoveUserAt(i: nat)
      requires Valid() && i < |users|
      modifies this
      ensures Valid() && nextGuid == old(nextGuid)
      ensures Snapshot() == old(Snapshot()).(users := old(users)[..i] + old(users)[i + 1..])
    {
      RemoveUserKeepsKeys(Snapshot(), nextGuid, i);
      users := users[..i] + users[i + 1..];
    }

    /** Deletes the row at index `i` of usersRoles. */
    method RemoveUserRoleAt(i: nat)
      requires Valid() && i < |usersRoles|
      modifies this
      ensures Valid() && nextGuid == old(nextGuid)
      ensures Snapshot() == old(Snapshot()).(usersRoles := old(usersRoles)[..i] + old(usersRoles)[i + 1..])
    {
      RemoveUserRoleKeepsKeys(Snapshot(), nextGuid, i);
      usersRoles := usersRoles[..i] + usersRoles[i + 1..];
    }

    /** Deletes the row at index `i` of rolePermissions. */
    method RemoveRolePermissionAt(i: nat)
      requires Valid() && i < |rolePermissions|
      modifies this
      ensures Valid() && nextGuid == old(nextGuid)
      ensures Snapshot() == old(Snapshot()).(rolePermissions := old(rolePermissions)[..i] + old(rolePermissions)[i + 1..])
    {
      RemoveRolePermissionKeepsKeys(Snapshot(), nextGuid, i);
      rolePermissions := rolePermissions[..i] + rolePermissions[i + 1..];
    }

    /** Drops the UsersRoles rows from index `n` on: rows a call added but
        never saved. */
    method TruncateUserRoles(n: nat)
      requires Valid() && n <= |usersRoles|
      modifies this
      ensures Valid() && nextGuid == old(nextGuid)
      ensures Snapshot() == old(Snapshot()).(usersRoles := old(usersRoles)[..n])
    {
      UserRolePrefixKeepsKeys(Snapshot(), nextGuid, n);
      usersRoles := usersRoles[..n];
    }

    /** Drops the MenuPermissions rows from index `n` on: rows a call added
        but never saved. */
    method TruncateMenuPermissions(n: nat)
      requires Valid() && n <= |menuPermissions|
      modifies this
      ensures Valid() && nextGuid == old(nextGuid)
      ensures Snapshot() == old(Snapshot()).(menuPermissions := old(menuPermissions)[..n])
    {
      MenuPermissionPrefixKeepsKeys(Snapshot(), nextGuid, n);
      menuPermissions := menuPermissions[..n];
    }

    /** Overwrites the role at index `i` with a row under the same key. */
    method ReplaceRoleAt(i: nat, role: Role)
      requires Valid() && i < |roles| && role.id == roles[i].id
      modifies this
      ensures Valid() && nextGuid == old(nextGuid)
      ensures Snapshot() == old(Snapshot()).(roles := old(roles)[i := role])
    {
      roles := roles[i := role];
    }

    /** Overwrites the user at index `i` with a row under the same key. */
    method ReplaceUserAt(i: nat, user: User)
      requires Valid() && i < |users| && user.id == users[i].id
      modifies this
      ensures Valid() && nextGuid == old(nextGuid)
      ensures Snapshot() == old(Snapshot()).(users := old(users)[i := user])
    {
      users := users[i := user];
    }
  }
}
