# StudentCoreWebApi RBAC data layer in Dafny

This project models the role-based access control data layer of
StudentCoreWebApi, an ASP.NET Core Web API. Four repositories and three
request validators make up that layer:

- `PermissionRepository`: the permission evaluator, plus role↔permission administration.
- `RoleRepository`: role administration and the admin check.
- `MenuRepository`: the permission-filtered menu tree.
- `UserRepository`: user administration, registration and login.

The identity store is the class `Store.IdentityStore`. It holds one `seq`
field per table, in insertion order:

- Users, Roles, Permissions and Menus
- the join tables UsersRoles, RolePermissions and MenuPermissions

It also holds a key counter that stands for Guid generation. `Valid()`
states two store invariants:

- every key lies below the counter;
- keys are unique within each table.

Every method keeps both invariants.

The code is split by flavour:

- **Queries** (LINQ chains, joins and the recursive `BuildMenuTree`) are
  functions over `Tables`, an immutable snapshot of the seven tables.
- **Mutating operations** are methods of the repository classes. Each method
  states its whole new store as `db.Snapshot() == old(db.Snapshot()).(...)`.
- **Loops** (`AssignPermissionsToRoleAsync`, `AssignPermissionToMenuAsync`,
  and the role loop of `AddUserAsync`) are `while` loops with invariants.
  Each is proved against a predicate that describes the rows appended, each
  under a key no earlier row uses.

The results follow the source:

- A result is an `ApiResponse` (success flag, message, optional payload) with
  the source's own message strings.
- An exception that escapes a call is an `Outcome.Threw`: an
  ArgumentException, a DbUpdateException on a key the database refuses,
  and the NullReferenceException of a null role in `UpdateRole`. Other
  null object arguments are not modelled (see "Left out").
- Every unordered `FirstOrDefault` is modelled as "the first row in table
  order", and every list a join returns follows the order of the rows of
  its first table.

Files:

- `common.dfy`: Guid, Option, ApiResponse, exceptions, and the `FirstIndex`
  and `Filter` helpers.
- `text.dfy`: ordinal substring, ordinal comparison, Unicode whitespace,
  UTF-16 length and lower-casing.
- `entities.dfy`: the entity rows and the DTOs.
- `store.dfy`: the store class and its primitive inserts and removals.
- `permission_repository.dfy`, `role_repository.dfy`, `menu_repository.dfy`,
  `user_repository.dfy` and `validators.dfy`: one file per core source file.

Behaviour worth noting:

- `HasPermissionAsync` ignores soft-delete flags. A user whose only role was
  soft-deleted keeps its permissions (`Permissions.HasPermissionIgnoresRoles`).
- `AssignPermissionsToRoleAsync` is not idempotent. Re-assigning a pair
  appends another row.
- A visible menu whose parent is not visible is dropped, not promoted to the
  top level (`Menus.OrphanDropped`).
- A null `Order` sorts before every value (C# `OrderBy` on `int?`), not after.
- Role administration is gated by the admin check on the first joined role
  name, not by the permission evaluator.
- Soft-deleted users are listed by `GetAllUsersAsync`.
- User deletion is a hard removal.
- A registered user is left without any role when the default role is not
  found.

## Model

| member | source | states |
|---|---|---|
| Permissions.HasPermission | StudentCoreWebApi/Repository/PermissionRepository.cs:90-103 | true iff some UsersRoles row of the user, some RolePermissions row of that role and some Permissions row with that id all exist, and the permission's name equals the requested name exactly |
| Permissions.NoRolesNoPermission | StudentCoreWebApi/Repository/PermissionRepository.cs:92-102 | a user without UsersRoles rows holds no permission (false, not an error) |
| Permissions.UnknownPermissionNeverHeld | StudentCoreWebApi/Repository/PermissionRepository.cs:98-102 | a name no Permissions row carries is held by nobody |
| Permissions.HasPermissionIgnoresRoles | StudentCoreWebApi/Repository/PermissionRepository.cs:90-103 | the decision does not depend on the Roles table, so soft-deleting a role does not revoke its permissions |
| Permissions.GetPermissionsByRole | StudentCoreWebApi/Repository/PermissionRepository.cs:77-88 | always succeeds with its message; a name is listed iff a RolePermissions row of the role joins a Permissions row of that name (row by row in `Permissions.PermissionsByRoleRows`) |
| Permissions.PermissionsByRoleRows | StudentCoreWebApi/Repository/PermissionRepository.cs:77-88 | with unique permission keys the list has one entry per RolePermissions row of the role whose permission exists, in table order, and the k-th entry is the name of the k-th such row's permission; duplicated grants are listed twice |
| Permissions.GetAllRolePermissions | StudentCoreWebApi/Repository/PermissionRepository.cs:105-126 | always succeeds; a DTO is listed iff it is built from a RolePermissions row whose role and permission both exist, carrying their ids and names (inner join; row by row in `Permissions.AllRolePermissionsRows`) |
| Permissions.AllRolePermissionsRows | StudentCoreWebApi/Repository/PermissionRepository.cs:105-126 | with unique role and permission keys the list has one DTO per RolePermissions row whose role and permission both exist, in table order, and the k-th DTO is the join of the k-th such row |
| Permissions.AppendedGrantsAreFresh | StudentCoreWebApi/Repository/PermissionRepository.cs:42-52 | rows keyed at or above the key counter, one per listed permission id, make an append of fresh grants in list order |
| Permissions.PermissionRepository.CreatePermission | StudentCoreWebApi/Repository/PermissionRepository.cs:23-33 | without "ManagePermissions": Access denied and no change; otherwise exactly one Permissions row is appended with the given name under a fresh key that replaces the caller's, and it is returned |
| Permissions.PermissionRepository.AssignPermissionsToRole | StudentCoreWebApi/Repository/PermissionRepository.cs:35-57 | without "ManagePermissions": Access denied and no change; otherwise one RolePermissions row per listed id, in order and repeats included, is appended under fresh keys; existence and duplicates are not checked; no other table changes |
| Permissions.PermissionRepository.AddGrants | StudentCoreWebApi/Repository/PermissionRepository.cs:42-54 | the loop appends exactly the grants for the listed ids, in order, and nothing else |
| Permissions.PermissionRepository.RemovePermissionFromRole | StudentCoreWebApi/Repository/PermissionRepository.cs:60-75 | without "ManagePermissions": Access denied and no change; no matching row: "Permission not found for this role" and no change; otherwise exactly the first matching row is removed |
| Roles.RoleNamesOf | StudentCoreWebApi/Repository/RoleRepository.cs:20-25 | a name is yielded iff some UsersRoles row of the user joins a role with that name |
| Roles.FirstJoinedName | StudentCoreWebApi/Repository/RoleRepository.cs:20-26 | the first name of the join is the name of the role in the first joined pair |
| Roles.IsUserAdmin | StudentCoreWebApi/Repository/RoleRepository.cs:18-29 | true iff the first pair of the UsersRoles ⋈ Roles join for the user names a role "Admin"; an "Admin" role in a later pair does not count |
| Roles.NoRolesNoAdmin | StudentCoreWebApi/Repository/RoleRepository.cs:18-29 | a user without UsersRoles rows is not an admin |
| Roles.SoftDeleteKeepsAdmin | StudentCoreWebApi/Repository/RoleRepository.cs:18-29 | setting a role's deleted flag never changes anyone's admin status |
| Roles.GetRoles | StudentCoreWebApi/Repository/RoleRepository.cs:32-35 | every role, soft-deleted ones included, in table order |
| Roles.GetUserAssignedRole | StudentCoreWebApi/Repository/RoleRepository.cs:154-170 | always succeeds; a name is listed iff a UsersRoles row of the user joins a role of that name, deleted roles included (row by row in `Roles.UserAssignedRoleRows`); when both queries return the join in table order, its head is "Admin" iff the user is an admin |
| Roles.UserAssignedRoleRows | StudentCoreWebApi/Repository/RoleRepository.cs:154-170 | with unique role keys the list has one entry per UsersRoles row of the user whose role exists, in table order, and the k-th entry is the name of the k-th such row's role |
| Roles.AssignThenRemoveRestores | StudentCoreWebApi/Repository/RoleRepository.cs:118-150 | assigning a role the user did not hold and then removing it restores UsersRoles exactly |
| Roles.RoleRepository.CreateRole | StudentCoreWebApi/Repository/RoleRepository.cs:37-53 | not admin: Access denied and no change; null role: "Role cannot be null." and no change; a key another role has: the save throws and nothing changes; otherwise exactly that role is appended, under a fresh key when its key is Guid.Empty |
| Roles.RoleRepository.UpdateRole | StudentCoreWebApi/Repository/RoleRepository.cs:55-74 | not admin: Access denied and no change; unknown key: "Role not found." and no change; a null role for a known key throws NullReferenceException with no change; otherwise only that role's name changes, soft-deleted or not |
| Roles.RoleRepository.DeleteRole | StudentCoreWebApi/Repository/RoleRepository.cs:76-94 | not admin: Access denied and no change; a missing or already deleted role: refused with no change; otherwise only that role's deleted flag is set, so a second delete fails |
| Roles.RoleRepository.AssignRoleToUser | StudentCoreWebApi/Repository/RoleRepository.cs:97-130 | not admin, or a missing user or role, or a pair that is already held: the matching failure and no change; otherwise exactly one row for the pair is appended under a fresh key |
| Roles.RoleRepository.RemoveUserRole | StudentCoreWebApi/Repository/RoleRepository.cs:132-151 | not admin: Access denied and no change; no matching row: the failure and no change; otherwise exactly the first matching row is removed |
| Menus.VisibleMenus | StudentCoreWebApi/Repository/MenuRepository.cs:19-39 | a menu is listed iff some role of the user is granted some permission linked to it; the list is a sub-multiset of the Menus table |
| Menus.SortByOrder | StudentCoreWebApi/Repository/MenuRepository.cs:41-44 | the result is sorted by Order, with null first, and is a permutation of its input |
| Menus.SortByOrderIsStable | StudentCoreWebApi/Repository/MenuRepository.cs:43 | menus sharing one Order value keep their relative order |
| Menus.LevelMembers | StudentCoreWebApi/Repository/MenuRepository.cs:41-44 | a level holds exactly the menus with the given parent |
| Menus.BuildForest | StudentCoreWebApi/Repository/MenuRepository.cs:46-57 | one node per menu of the level, in the level's order |
| Menus.MenuTree | StudentCoreWebApi/Repository/MenuRepository.cs:41-59 | the top level is the sorted visible menus with a null parent; below every node lie exactly the sorted visible menus naming it as parent |
| Menus.MenuAppearsIff | StudentCoreWebApi/Repository/MenuRepository.cs:41-59 | a menu appears in the tree iff a chain of visible menus leads to it from a visible menu with a null parent |
| Menus.MenuAppearsOnce | StudentCoreWebApi/Repository/MenuRepository.cs:41-59 | no menu appears twice in the tree |
| Menus.OrphanDropped | StudentCoreWebApi/Repository/MenuRepository.cs:41-55 | a visible menu whose parent is not visible is not in the tree |
| Menus.ToDtos | StudentCoreWebApi/Repository/MenuRepository.cs:48-56 | each DTO carries only Title, Icon, Path and the projected sub-menus; Id stays Guid.Empty and Order and ParentMenuId stay null |
| Menus.GetMenuByUser | StudentCoreWebApi/Repository/MenuRepository.cs:17-60 | one DTO per visible top-level menu, in Order order, with that menu's title, icon and path |
| Menus.NoVisibleMenusNoTree | StudentCoreWebApi/Repository/MenuRepository.cs:36-59 | a user whose roles reach no menu gets an empty list |
| Menus.NoRolesNoMenus | StudentCoreWebApi/Repository/MenuRepository.cs:19-59 | a user without roles gets an empty list |
| Menus.NewPairings | StudentCoreWebApi/Repository/MenuRepository.cs:85-98 | an id is paired iff it is listed and the saved table does not link it to the menu yet |
| Menus.NewPairingsSnoc | StudentCoreWebApi/Repository/MenuRepository.cs:85-98 | one more listed id extends the pairings by that id exactly when it is not yet linked |
| Menus.AppendedPairingsAreFresh | StudentCoreWebApi/Repository/MenuRepository.cs:92-96 | rows keyed at or above the key counter make an append of fresh links, in order |
| Menus.EveryListedPermissionLinked | StudentCoreWebApi/Repository/MenuRepository.cs:85-100 | after a successful call every listed permission is linked to the menu |
| Menus.AlreadyLinkedAddsNothing | StudentCoreWebApi/Repository/MenuRepository.cs:87-90 | listing only permissions already linked adds no row |
| Menus.UnlinkedMenuAddsAll | StudentCoreWebApi/Repository/MenuRepository.cs:85-98 | for a menu with no saved link, every listed id is added, repeats included |
| Menus.MenuRepository.CreateMenu | StudentCoreWebApi/Repository/MenuRepository.cs:62-77 | builds one menu under a fresh key copying title, icon, path, order and parent; if the parent is null or a saved menu (the foreign key holds), returns true and appends exactly that menu, otherwise throws DbUpdateException and changes nothing |
| Menus.ParentSavedAppend | StudentCoreWebApi/Model/Menu.cs:11-12 | the parent foreign key of a new menu holds iff it has no parent, names itself, or names a menu already saved |
| Menus.MenuRepository.AssignPermissionToMenu | StudentCoreWebApi/Repository/MenuRepository.cs:79-101 | unknown menu: throws ArgumentException("Menu not found.") and no change; a new pairing naming no saved permission: throws DbUpdateException and no change; otherwise appends links exactly for the new pairings, in list order, and changes no other table |
| Menus.KnownPermissionsSave | StudentCoreWebApi/Model/MenuPermission.cs:9-10 | listing only saved permission ids never breaks the permission foreign key |
| Menus.UnknownPermissionBreaksSave | StudentCoreWebApi/Model/MenuPermission.cs:9-10 | an unlinked listed id that names no saved permission breaks the foreign key, so the call saves nothing |
| Menus.MenuRepository.AddPairings | StudentCoreWebApi/Repository/MenuRepository.cs:85-100 | the loop appends exactly the new pairings and nothing else |
| Users.Wrap32 | StudentCoreWebApi/Repository/UserRepository.cs:46 | the result is a 32-bit value congruent to the input modulo 2^32, and equals an input already in range |
| Users.PageOffsetInRange | StudentCoreWebApi/Repository/UserRepository.cs:46 | for parameters whose product fits an int, the skip is (pageNumber-1)*pageSize |
| Users.PageOffsetWraps | StudentCoreWebApi/Repository/UserRepository.cs:46 | beyond the int range the skip wraps: page 65537 of size 65536 starts at 0 |
| Users.PageStart | StudentCoreWebApi/Repository/UserRepository.cs:46 | Skip starts inside the list, at the offset when the offset is in range |
| Users.Page | StudentCoreWebApi/Repository/UserRepository.cs:46-48 | Skip/Take gives a contiguous run of the list; empty for a non-positive size, never longer than the size |
| Users.PageIsSlice | StudentCoreWebApi/Repository/UserRepository.cs:46-48 | with a non-negative offset and positive size the page is the slice from the offset, cut at the end |
| Users.SearchUsers | StudentCoreWebApi/Repository/UserRepository.cs:30-35 | an empty query keeps every user; otherwise a user is kept iff its first or last name contains the query; soft-deleted users are kept |
| Users.BeforeTotal | StudentCoreWebApi/Repository/UserRepository.cs:37-44 | the sort order compares any two users |
| Users.BeforeTransitive | StudentCoreWebApi/Repository/UserRepository.cs:37-44 | the sort order is transitive |
| Users.SortUsers | StudentCoreWebApi/Repository/UserRepository.cs:37-44 | sorted by FirstName iff sortBy is "FirstName" (else LastName), ascending iff sortOrder is "asc"; a permutation of the input |
| Users.GetAllUsers | StudentCoreWebApi/Repository/UserRepository.cs:28-51 | always succeeds; a non-positive page size gives an empty page, and a page never has more users than the page size or the search |
| Users.GetAllUsersSound | StudentCoreWebApi/Repository/UserRepository.cs:28-51 | every listed user is stored and matches the query, and the page is in the requested order |
| Users.SortedSearchComplete | StudentCoreWebApi/Repository/UserRepository.cs:30-44 | every matching user is in the sorted search, and an empty query keeps the whole table |
| Users.GetAllUsersPage | StudentCoreWebApi/Repository/UserRepository.cs:46-50 | for ordinary parameters the page is the slice of the sorted search from (pageNumber-1)*pageSize, at most pageSize long |
| Users.GetById | StudentCoreWebApi/Repository/UserRepository.cs:53-63 | succeeds iff some user, deleted or not, has the key, and then returns a stored user with it; otherwise UserNotFound |
| Users.GetUserByEmail | StudentCoreWebApi/Repository/UserRepository.cs:314-319 | none iff no user is both active and exactly equal in email; otherwise the first such user in table order |
| Entities.RoleNameOf | StudentCoreWebApi/Repository/UserRepository.cs:248-251 | null iff no role has the id; otherwise the name of a role with it |
| Users.Login | StudentCoreWebApi/Repository/UserRepository.cs:226-275 | succeeds iff an active user has the email exactly, the password verifies against its hash and it has a UsersRoles row; no active user with the email, or a wrong password, gives InvalidCredentials; a verified user with no UsersRoles row gives UserRoleNotAssigned; a success carries UserLoginSuccessfully and the user's id, names, email, phone and the token generated from its id, email and role name |
| Users.LoginFailuresLookAlike | StudentCoreWebApi/Repository/UserRepository.cs:228-241 | an unknown email, a deleted account and a wrong password all give the same InvalidCredentials response |
| Users.LoginReportsFirstRole | StudentCoreWebApi/Repository/UserRepository.cs:243-272 | a successful login reports an active user with that email and the role of its first UsersRoles row, with that role's name |
| Users.AddUserRejection | StudentCoreWebApi/Repository/UserRepository.cs:68-86 | nothing is refused before the insert iff the role string is "Admin", no user has the email, and no user has the phone when one is given |
| Users.RoleStepFailure | StudentCoreWebApi/Repository/UserRepository.cs:101-133 | the role step succeeds iff the role list is present, non-empty, and every listed id names a role |
| Users.RoleDtos | StudentCoreWebApi/Repository/UserRepository.cs:117-121 | one entry per listed role id |
| Users.RoleDtosAt | StudentCoreWebApi/Repository/UserRepository.cs:117-121 | entry k carries the k-th listed id and that role's name |
| Users.AppendedUserRolesAreFresh | StudentCoreWebApi/Repository/UserRepository.cs:108-115 | rows keyed at or above the key counter make an append of fresh UsersRoles rows, in order |
| Users.AddUserNeedsAdmin | StudentCoreWebApi/Repository/UserRepository.cs:68-71 | a role string other than "Admin" gives RestrictedByAdmin and changes nothing |
| Users.AddUserKeepsUserWhenRolesFail | StudentCoreWebApi/Repository/UserRepository.cs:96-133 | when the role step fails the new user stays saved and no UsersRoles row is added |
| Users.AddedUserFoundByEmail | StudentCoreWebApi/Repository/UserRepository.cs:96-97 | an added user is the one GetUserByEmailAsync then finds for its email |
| Users.AddUserTwiceRefused | StudentCoreWebApi/Repository/UserRepository.cs:73-77 | a second add with the same email is refused with UserAlreadyExist |
| Users.Edited | StudentCoreWebApi/Repository/UserRepository.cs:292-295 | exactly FirstName, LastName, Email and Phone take the update's values; key, hash, salt and deleted flag are kept |
| Users.UpdateThenGetById | StudentCoreWebApi/Repository/UserRepository.cs:278-311 | after a successful update GetByIdAsync returns the edited user |
| Users.DefaultRoleIndex | StudentCoreWebApi/Repository/UserRepository.cs:206-207 | none iff no lower-cased role name equals the key; otherwise the first role whose lower-cased name does |
| Users.ManagerKeyNeverMatches | StudentCoreWebApi/Repository/UserRepository.cs:205-207 | with the key RolesEnum.Manager.ToString(), no role is ever found |
| Users.DefaultRoleKeyFindsManager | StudentCoreWebApi/Repository/UserRepository.cs:205-207 | with the key "manager", a role named Manager in any letter case is found, and the first such role is used |
| Users.DeleteThenGetByIdFails | StudentCoreWebApi/Repository/UserRepository.cs:336-337 | after the hard delete GetByIdAsync reports UserNotFound |
| Users.UserRepository.AddUser | StudentCoreWebApi/Repository/UserRepository.cs:65-148 | refusals leave the store unchanged; otherwise the user is appended under a fresh key with a missing phone stored as 0; then a role-step failure keeps that user and adds no role row; on success one UsersRoles row per listed id is appended and the response lists those roles |
| Users.UserRepository.AddUserRoles | StudentCoreWebApi/Repository/UserRepository.cs:99-129 | reports the first listed id no role has and then leaves the store as before; otherwise appends one fresh row per id, in order, and returns the matching role entries |
| Users.UserRepository.Update | StudentCoreWebApi/Repository/UserRepository.cs:278-311 | not "Admin": RestrictedByAdmin and no change; unknown key: UserNotFound and no change; otherwise only that user is replaced by the edited user; the response has no role list |
| Users.UserRepository.AddOrEditUser | StudentCoreWebApi/Repository/UserRepository.cs:150-185 | a null or empty id adds the mapped user; an unknown key gives UserNotFound with no change, before the role check; otherwise it behaves as UpdateAsync on the mapped update |
| Users.UserRepository.RegisterUser | StudentCoreWebApi/Repository/UserRepository.cs:187-224 | a taken email (deleted users included) gives UserAlreadyExist and no change; otherwise the user is saved; with no matching default role DefaultRoleNotFound is returned and the user stays; else exactly one UsersRoles row for that role is appended |
| Users.UserRepository.Delete | StudentCoreWebApi/Repository/UserRepository.cs:321-339 | not "Admin": RestrictedByAdmin and no change; unknown key: UserNotFound and no change; otherwise that row is removed outright and returned |
| Validators.PhoneErrors | StudentCoreWebApi/Validators/UserValidator.cs:16-18 | a null phone passes; otherwise "must be contain 10 digits" iff the phone is at most 999999999, and "Maximum number exceeded" iff it is at least the bound |
| Validators.ValidateUser | StudentCoreWebApi/Validators/UserValidator.cs:10-18 | each message is reported iff its rule fails (blank first name, blank last name, blank email, email format; blank means every character is a Unicode white space); accepted iff names and email are not blank, the email passes the format check and the phone passes |
| Validators.SourcePhoneRange | StudentCoreWebApi/Validators/UserValidator.cs:16-18 | as written a phone passes iff it lies in 1000000000..9999999998 |
| Validators.DigitCountRange | StudentCoreWebApi/Validators/UserValidator.cs:17 | a number has k digits iff it lies in 10^(k-1)..10^k-1 |
| Validators.SourceRejectsTenDigitPhone | StudentCoreWebApi/Validators/UserValidator.cs:16-18 | the ten-digit 9999999999 is refused with "Maximum number exceeded" |
| Validators.IntendedPhoneIsTenDigits | StudentCoreWebApi/Validators/UserValidator.cs:16-18 | with the bound 10000000000 a phone passes iff it has exactly ten digits |
| Validators.ValidateRegister | StudentCoreWebApi/Validators/RegisterRequestValidator.cs:7-11 | "'Email' must not be empty." iff the email is blank; "Invalid email format" iff the format check fails; the password message iff it is shorter than 6 UTF-16 code units; accepted iff none of these |
| Validators.ValidateLogin | StudentCoreWebApi/Validators/LoginRequestValidator.cs:8-12 | the same email messages; "Password is required" iff the password is blank (Unicode white space only); accepted iff none of these |
| Validators.SameEmailRule | StudentCoreWebApi/Validators/LoginRequestValidator.cs:10 | both validators report the same email messages for the same email |
| Validators.BlankPasswordRegistersButFailsLogin | StudentCoreWebApi/Validators/LoginRequestValidator.cs:11 | a password of six spaces passes registration and is refused at login |
| Validators.ShortPasswordOnlyAtLogin | StudentCoreWebApi/Validators/RegisterRequestValidator.cs:10 | a one-character password passes login and is refused at registration |
| Validators.AstralPasswordIsLongEnough | StudentCoreWebApi/Validators/RegisterRequestValidator.cs:10 | three characters outside the Basic Multilingual Plane (six UTF-16 code units) pass the minimum length, three inside it do not |
| Validators.IdeographicSpaceIsBlank | StudentCoreWebApi/Validators/LoginRequestValidator.cs:11 | a password made of an ideographic space (U+3000) is refused as blank at login |
| Text.Utf16Length | StudentCoreWebApi/Validators/RegisterRequestValidator.cs:10 | the length that `MinimumLength` measures lies between the number of characters and twice it |
| Text.Utf16LengthBmp | StudentCoreWebApi/Validators/RegisterRequestValidator.cs:10 | for a string within the Basic Multilingual Plane that length is the number of characters |

## Left out

- Controllers, `Program.cs` wiring, the email services, middleware, migrations and the authorization attribute are not part of this model. Actor ids and role strings are explicit parameters.
- Password hashing is not modelled: the hash and salt are parameters. `VerifyPassword` and JWT token generation are function parameters of `Users.Login`.
- The email-format rule (FluentValidation's `EmailAddress()`) is not modelled: it is the function parameter `isEmail` of the validators.
- AutoMapper mappings are modelled as field copies (`Users.NewUser`, `Users.RegisteredUser`, `Dtos.ToAddUser`, `Dtos.ToUpdateUser`).
- Async execution, EF Core change tracking and concurrent check-then-insert races are not modelled. The model is sequential, and each call runs to completion against the store.
- Guids are natural numbers with Guid.Empty as 0. `Guid.NewGuid()` and EF key generation are one counter, so a generated key is fresh by construction. This includes the MenuPermissions key, which the source leaves to EF.
- Database collation is not modelled: all string comparisons are ordinal. SQL Server's default case-insensitive collation would change every comparison EF runs in the database: the email and role-name comparisons, the name search of `Users.SearchUsers` (`Contains`), the ordering of `Users.SortUsers`, and the permission-name match of `Permissions.HasPermission`.
- Null object arguments are not modelled: the parameters are values that are always present. The source dereferences them and throws NullReferenceException for a null `permission` in `Permissions.PermissionRepository.CreatePermission` (after the access check), a null id list in `Permissions.PermissionRepository.AssignPermissionsToRole` and `Menus.MenuRepository.AssignPermissionToMenu` (after their checks), a null DTO in `Menus.MenuRepository.CreateMenu`, `Users.UserRepository.AddUser` and `Users.UserRepository.RegisterUser`, and a null update in `Users.UserRepository.Update` (after the user is found). Only `Roles.RoleRepository.UpdateRole` models its null role.
- A null string is modelled as "". A null email therefore gets both email messages from the validators, where FluentValidation reports only the NotEmpty one. A null password passes FluentValidation's `MinimumLength(6)`, which skips null values, while the model's "" is refused with the too-short message.
- Users.GetAllUsers: LINQ-to-objects semantics are used for Skip and Take. A negative offset skips nothing and a non-positive size takes nothing. A database provider may reject these instead: SQL Server's OFFSET/FETCH refuses a negative offset and a FETCH of zero or fewer rows.
- Users.SortUsers: the order among users with equal keys is not stated, since the SQL ORDER BY does not fix it.
- Text.ToLower: only the ASCII letters are lower-cased, where `string.ToLower()` also maps other upper-case letters (such as 'É'). The default-role finding does not depend on it: no lower-cased string, in either sense, contains 'M'.
- Permissions.PermissionRepository.AssignPermissionsToRole: a grant naming no saved role or permission is stored and reported as success. The Userrole, RolePermission and Permission entity classes are not part of this model, so no foreign key is known for UsersRoles or RolePermissions; only the Menus and MenuPermissions keys, declared in `Menu.cs` and `MenuPermission.cs`, are modelled.
- Unordered `FirstOrDefault` and `FindAsync` are modelled as the first matching row in table order.
- Query results without an ORDER BY are modelled in table order: the lists of `Permissions.GetPermissionsByRole`, `Permissions.GetAllRolePermissions` and `Roles.GetUserAssignedRole` follow the order of the RolePermissions or UsersRoles rows, and `Roles.IsUserAdmin` takes the first joined row in that order. SQL guarantees no such order, nor that two separate queries agree on one.
- Roles.GetUserAssignedRole: "its head is "Admin" iff the user is an admin" holds only because the model gives this query and the `IsUserAdmin` query the same order; the source runs them as two unordered queries, so the database may return a different first row to each.
- Cascading deletes of UsersRoles rows when a user is removed are not modelled. `Users.UserRepository.Delete` removes only the Users row.
- The menu functions require unique menu keys (`UniqueMenuIds`), which the store's primary key guarantees. The recursion of `BuildMenuTree` is bounded by them.
- Users.UserRepository.RegisterUser: the default-role comparison key is a parameter. The source's key is `Users.EnumName(Manager)`, and the intended one is `Users.DefaultRoleKey`.
- Validators.ValidateUser: the phone rule's upper bound is a parameter. The source's bound is `SourcePhoneLimit`, and the intended one is `IntendedPhoneLimit`.

## Findings

| source | as written | input that shows it | evidently intended | confidence | as-written member | corrected member |
|---|---|---|---|---|---|---|
| StudentCoreWebApi/Repository/UserRepository.cs:205-207 | the default role is looked up by `role_name.ToLower() == RolesEnum.Manager.ToString()`, i.e. a lower-cased name against "Manager" | a Roles table holding a role named "Manager": under ordinal comparison no lower-cased name equals "Manager", so registration saves the user and returns DefaultRoleNotFound | compare with the lower-cased enum name "manager", so that a role named Manager in any case is found | not executed; a case-insensitive database collation would hide it | Users.ManagerKeyNeverMatches | Users.DefaultRoleKeyFindsManager |
| StudentCoreWebApi/Validators/UserValidator.cs:16-18 | the phone must be `GreaterThan(999999999)` and `LessThan(9999999999)` | phone 9999999999, a ten-digit number, is refused with "Maximum number exceeded" | accept every ten-digit number, i.e. an upper bound of 10000000000 | not executed | Validators.SourceRejectsTenDigitPhone | Validators.IntendedPhoneIsTenDigits |
