/** The rows of the identity store, one datatype per table, and a snapshot
    of all seven tables. Column names follow the entities: `Role.id` and
    `Role.name` are the source's `role_Id` and `role_name`, `UserRole.userId`
    and `UserRole.roleId` its `User_Id` and `Role_Id`. */
module Entities {
  import opened Common

  /** A user. A null first or last name is represented by "". */
  datatype User = User(
    id: Guid,
    firstName: string,
    lastName: string,
    email: string,
    phone: Option<int>,
    passwordHash: string,
    passwordSalt: string,
    isDeleted: bool)

  /** A role; `isDeleted` is the soft-delete flag the role repository sets. */
  datatype Role = Role(id: Guid, name: string, isDeleted: bool)

  datatype Permission = Permission(id: Guid, name: string)

  /** A row of UsersRoles: user `userId` holds role `roleId`. */
  datatype UserRole = UserRole(id: Guid, userId: Guid, roleId: Guid)

  /** A row of RolePermissions: role `roleId` is granted `permissionId`. */
  datatype RolePermission = RolePermission(id: Guid, roleId: Guid, permissionId: Guid)

  /** A menu entry; a null `parentMenuId` marks a top-level entry. */
  datatype Menu = Menu(
    id: Guid,
    title: string,
    icon: Option<string>,
    path: Option<string>,
    order: Option<int>,
    parentMenuId: Option<Guid>)

  /** A row of MenuPermissions: `menuId` is visible to holders of `permissionId`. */
  datatype MenuPermission = MenuPermission(id: Guid, menuId: Guid, permissionId: Guid)

  ghost predicate UniqueUserIds(us: seq<User>)
  {
    forall i, j :: 0 <= i < |us| && 0 <= j < |us| && us[i].id == us[j].id ==> i == j
  }

  ghost predicate UniqueRoleIds(rs: seq<Role>)
  {
    forall i, j :: 0 <= i < |rs| && 0 <= j < |rs| && rs[i].id == rs[j].id ==> i == j
  }

  ghost predicate UniquePermissionIds(ps: seq<Permission>)
  {
    forall i, j :: 0 <= i < |ps| && 0 <= j < |ps| && ps[i].id == ps[j].id ==> i == j
  }

  ghost predicate UniqueMenuIds(ms: seq<Menu>)
  {
    forall i, j :: 0 <= i < |ms| && 0 <= j < |ms| && ms[i].id == ms[j].id ==> i == j
  }

  ghost predicate UniqueUserRoleIds(urs: seq<UserRole>)
  {
    forall i, j :: 0 <= i < |urs| && 0 <= j < |urs| && urs[i].id == urs[j].id ==> i == j
  }

  ghost predicate UniqueRolePermissionIds(rps: seq<RolePermission>)
  {
    forall i, j :: 0 <= i < |rps| && 0 <= j < |rps| && rps[i].id == rps[j].id ==> i == j
  }

  ghost predicate UniqueMenuPermissionIds(mps: seq<MenuPermission>)
  {
    forall i, j :: 0 <= i < |mps| && 0 <= j < |mps| && mps[i].id == mps[j].id ==> i == j
  }

  /** The contents of the seven tables, each in insertion order. */
  datatype Tables = Tables(
    users: seq<User>,
    roles: seq<Role>,
    permissions: seq<Permission>,
    usersRoles: seq<UserRole>,
    rolePermissions: seq<RolePermission>,
    menus: seq<Menu>,
    menuPermissions: seq<MenuPermission>)
  {
    /** Every primary key in every table is below `bound`. */
    ghost predicate KeysBelow(bound: Guid)
    {
      && (forall i :: 0 <= i < |users| ==> users[i].id < bound)
      && (forall i :: 0 <= i < |roles| ==> roles[i].id < bound)
      && (forall i :: 0 <= i < |permissions| ==> permissions[i].id < bound)
      && (forall i :: 0 <= i < |usersRoles| ==> usersRoles[i].id < bound)
      && (forall i :: 0 <= i < |rolePermissions| ==> rolePermissions[i].id < bound)
      && (forall i :: 0 <= i < |menus| ==> menus[i].id < bound)
      && (forall i :: 0 <= i < |menuPermissions| ==> menuPermissions[i].id < bound)
    }

    /** Every table is keyed by its `id` column. */
    ghost predicate UniqueKeys()
    {
      && UniqueUserIds(users) && UniqueRoleIds(roles) && UniquePermissionIds(permissions)
      && UniqueUserRoleIds(usersRoles) && UniqueRolePermissionIds(rolePermissions)
      && UniqueMenuIds(menus) && UniqueMenuPermissionIds(menuPermissions)
    }

    /** No row of any table uses `g` as its primary key. */
    ghost predicate IdUnused(g: Guid)
    {
      && (forall i :: 0 <= i < |users| ==> users[i].id != g)
      && (forall i :: 0 <= i < |roles| ==> roles[i].id != g)
      && (forall i :: 0 <= i < |permissions| ==> permissions[i].id != g)
      && (forall i :: 0 <= i < |usersRoles| ==> usersRoles[i].id != g)
      && (forall i :: 0 <= i < |rolePermissions| ==> rolePermissions[i].id != g)
      && (forall i :: 0 <= i < |menus| ==> menus[i].id != g)
      && (forall i :: 0 <= i < |menuPermissions| ==> menuPermissions[i].id != g)
    }
  }
  /** The Roles rows whose id is `rid`, in table order. */
  function RolesWithId(roles: seq<Role>, rid: Guid): (r: seq<Role>)
    ensures forall ro :: ro in r <==> ro in roles && ro.id == rid
  {
    if roles == [] then []
    else
      assert roles == [roles[0]] + roles[1..];
      (if roles[0].id == rid then [roles[0]] else []) + RolesWithId(roles[1..], rid)
  }

  /** The Roles row keyed `rid`: the first in table order, or None. */
  function RoleWithKey(roles: seq<Role>, rid: Guid): (r: Option<Role>)
    ensures r.None? <==> forall k :: 0 <= k < |roles| ==> roles[k].id != rid
    ensures r.Some? ==> r.value in roles && r.value.id == rid
  {
    match FirstIndex(roles, RoleKeyed(rid))
    case None => None
    case Some(j) => Some(roles[j])
  }

  /** The name of the role keyed `roleId`, as the login query and the
      UsersRoles ⋈ Roles join report it: the first Roles row with that key,
      or null when there is none. */
  function RoleNameOf(roles: seq<Role>, roleId: Guid): (name: Option<string>)
    ensures name.None? <==> forall k :: 0 <= k < |roles| ==> roles[k].id != roleId
    ensures name.Some? ==> exists k :: 0 <= k < |roles| && roles[k].id == roleId && roles[k].name == name.value
  {
    match RoleWithKey(roles, roleId)
    case None => None
    case Some(ro) => Some(ro.name)
  }

  lemma UniqueRoleTail(roles: seq<Role>)
    requires roles != [] && UniqueRoleIds(roles)
    ensures UniqueRoleIds(roles[1..])
    ensures forall k :: 0 <= k < |roles[1..]| ==> roles[1..][k].id != roles[0].id
  {
    forall i, j | 0 <= i < |roles[1..]| && 0 <= j < |roles[1..]| && roles[1..][i].id == roles[1..][j].id
      ensures i == j
    {
      assert roles[1..][i] == roles[i + 1] && roles[1..][j] == roles[j + 1];
    }
    forall k | 0 <= k < |roles[1..]| ensures roles[1..][k].id != roles[0].id {
      assert roles[1..][k] == roles[k + 1];
    }
  }

  /** Without a match the first match of the tail is the first match. */
  lemma RoleWithKeyTail(roles: seq<Role>, rid: Guid)
    requires roles != [] && roles[0].id != rid
    ensures RoleWithKey(roles, rid) == RoleWithKey(roles[1..], rid)
  {
    match FirstIndex(roles[1..], RoleKeyed(rid))
    case None =>
    case Some(j) =>
      assert roles[1..][j] == roles[j + 1];
  }

  /** Under unique keys the join on a role id meets at most one row: the
      one keyed `rid`. */
  lemma {:induction false} UniqueRoleJoin(roles: seq<Role>, rid: Guid)
    requires UniqueRoleIds(roles)
    ensures RolesWithId(roles, rid) == match RoleWithKey(roles, rid) case None => [] case Some(ro) => [ro]
  {
    if roles != [] {
      UniqueRoleTail(roles);
      UniqueRoleJoin(roles[1..], rid);
      if roles[0].id == rid {
        assert RoleWithKey(roles[1..], rid).None?;
        assert RoleWithKey(roles, rid) == Some(roles[0]);
      } else {
        RoleWithKeyTail(roles, rid);
      }
    }
  }

  /** The role ids of the UsersRoles rows of `userId`, in table order. */
  function RoleIdsOf(usersRoles: seq<UserRole>, userId: Guid): (ids: seq<Guid>)
    ensures |ids| <= |usersRoles|
    ensures forall g :: g in ids <==> exists ur :: ur in usersRoles && ur.userId == userId && ur.roleId == g
  {
    if usersRoles == [] then []
    else
      assert usersRoles == [usersRoles[0]] + usersRoles[1..];
      (if usersRoles[0].userId == userId then [usersRoles[0].roleId] else [])
      + RoleIdsOf(usersRoles[1..], userId)
  }

  /** Matches the User row whose key is `g` (FindAsync on Users). */
  function UserKeyed(g: Guid): User -> bool
  {
    (u: User) => u.id == g
  }

  /** Matches the Role row whose key is `g` (FindAsync on Roles). */
  function RoleKeyed(g: Guid): Role -> bool
  {
    (ro: Role) => ro.id == g
  }

  /** Matches the Menu row whose key is `g`. */
  function MenuKeyed(g: Guid): Menu -> bool
  {
    (m: Menu) => m.id == g
  }

  /** Matches the UsersRoles rows giving `roleId` to `userId`. */
  function Holds(userId: Guid, roleId: Guid): UserRole -> bool
  {
    (ur: UserRole) => ur.userId == userId && ur.roleId == roleId
  }

  /** An id at or above the bound of a table snapshot is used by no row. */
  lemma AboveBoundUnused(t: Tables, bound: Guid, g: Guid)
    requires t.KeysBelow(bound) && bound <= g
    ensures t.IdUnused(g)
  {
  }

  /** Removing one RolePermissions row keeps every table keyed. */
  lemma RemoveRolePermissionKeepsKeys(t: Tables, bound: Guid, i: nat)
    requires t.KeysBelow(bound) && t.UniqueKeys() && i < |t.rolePermissions|
    ensures var t' := t.(rolePermissions := t.rolePermissions[..i] + t.rolePermissions[i + 1..]);
      t'.KeysBelow(bound) && t'.UniqueKeys()
  {
    var s := t.rolePermissions;
    var s' := s[..i] + s[i + 1..];
    assert forall k :: 0 <= k < |s'| ==> s'[k] == s[if k < i then k else k + 1];
  }

  /** Removing one UsersRoles row keeps every table keyed. */
  lemma RemoveUserRoleKeepsKeys(t: Tables, bound: Guid, i: nat)
    requires t.KeysBelow(bound) && t.UniqueKeys() && i < |t.usersRoles|
    ensures var t' := t.(usersRoles := t.usersRoles[..i] + t.usersRoles[i + 1..]);
      t'.KeysBelow(bound) && t'.UniqueKeys()
  {
    var s := t.usersRoles;
    var s' := s[..i] + s[i + 1..];
    assert forall k :: 0 <= k < |s'| ==> s'[k] == s[if k < i then k else k + 1];
  }

  /** Keeping a prefix of UsersRoles keeps every table keyed. */
  lemma UserRolePrefixKeepsKeys(t: Tables, bound: Guid, n: nat)
    requires t.KeysBelow(bound) && t.UniqueKeys() && n <= |t.usersRoles|
    ensures var t' := t.(usersRoles := t.usersRoles[..n]);
      t'.KeysBelow(bound) && t'.UniqueKeys()
  {
    var s := t.usersRoles;
    assert forall k :: 0 <= k < n ==> s[..n][k] == s[k];
  }

  /** Keeping a prefix of MenuPermissions keeps every table keyed. */
  lemma MenuPermissionPrefixKeepsKeys(t: Tables, bound: Guid, n: nat)
    requires t.KeysBelow(bound) && t.UniqueKeys() && n <= |t.menuPermissions|
    ensures var t' := t.(menuPermissions := t.menuPermissions[..n]);
      t'.KeysBelow(bound) && t'.UniqueKeys()
  {
    var s := t.menuPermissions;
    assert forall k :: 0 <= k < n ==> s[..n][k] == s[k];
  }

  /** Removing one Users row keeps every table keyed. */
  lemma RemoveUserKeepsKeys(t: Tables, bound: Guid, i: nat)
    requires t.KeysBelow(bound) && t.UniqueKeys() && i < |t.users|
    ensures var t' := t.(users := t.users[..i] + t.users[i + 1..]);
      t'.KeysBelow(bound) && t'.UniqueKeys()
  {
    var s := t.users;
    var s' := s[..i] + s[i + 1..];
    assert forall k :: 0 <= k < |s'| ==> s'[k] == s[if k < i then k else k + 1];
  }
}

/** The request and response shapes the repositories exchange with their
    callers. */
module Dtos {
  import opened Common

  /** The payload of one joined RolePermissions ⋈ Roles ⋈ Permissions row. */
  datatype RolePermissionDto = RolePermissionDto(
    rolePermissionId: Guid,
    roleId: Guid,
    roleName: string,
    permissionId: Guid,
    permissionName: string)

  /** A menu entry as returned to the client. */
  datatype MenuDto = MenuDto(
    id: Guid,
    title: string,
    icon: Option<string>,
    path: Option<string>,
    order: Option<int>,
    parentMenuId: Option<Guid>,
    subMenus: seq<MenuDto>)

  datatype UserRoleDto = UserRoleDto(roleId: Guid, roleName: string)

  datatype AddUserResponseDto = AddUserResponseDto(
    id: Guid,
    firstName: string,
    lastName: string,
    email: string,
    phone: int,
    passwordHash: string,
    passwordSalt: string,
    roles: Option<seq<UserRoleDto>>)

  datatype LoginResponseDto = LoginResponseDto(
    id: Guid,
    firstName: string,
    lastName: string,
    email: string,
    phone: Option<int>,
    roleId: Guid,
    roleName: Option<string>,
    token: string)

  /** The admin's "add user" request; `roles` is null when absent. */
  datatype AddUser = AddUser(
    firstName: string,
    lastName: string,
    email: string,
    phone: Option<int>,
    password: string,
    roles: Option<seq<Guid>>)

  datatype UpdateUser = UpdateUser(
    id: Guid,
    firstName: string,
    lastName: string,
    email: string,
    phone: int,
    roles: Option<seq<Guid>>)

  /** The combined add-or-edit request. */
  datatype UpsertDto = UpsertDto(
    id: Option<Guid>,
    firstName: string,
    lastName: string,
    email: string,
    phone: int,
    password: string,
    roles: Option<seq<Guid>>)

  datatype RegisterRequest = RegisterRequest(email: string, password: string)

  datatype LoginRequest = LoginRequest(email: string, password: string)

  /** AutoMapper's UpsertDto -> AddUser map: a field-by-field copy. */
  function ToAddUser(d: UpsertDto): AddUser
  {
    AddUser(d.firstName, d.lastName, d.email, Some(d.phone), d.password, d.roles)
  }

  /** AutoMapper's UpsertDto -> UpdateUser map: a field-by-field copy; the
      missing id becomes Guid.Empty. */
  function ToUpdateUser(d: UpsertDto): UpdateUser
  {
    UpdateUser(if d.id.Some? then d.id.value else EmptyGuid, d.firstName, d.lastName, d.email, d.phone, d.roles)
  }
}
