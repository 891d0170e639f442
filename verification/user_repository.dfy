/** User administration and the authentication flows
    (StudentCoreWebApi/Repository/UserRepository.cs). The queries are
    functions over the tables; adding, registering, updating and deleting
    change the store and are methods of `UserRepository`. Password hashing,
    password checking and token issuing belong to services outside the
    model: hashes arrive as parameters, and checking and issuing are
    function parameters. */
module Users {
  import opened Common
  import opened Text
  import opened Entities
  import opened Dtos
  import opened Store

  /** The role name the admin-gated operations compare the caller's role
      string against. */
  const AdminRole := "Admin"

  /** The roles enumeration; only Manager is used by the repository. */
  datatype RolesEnum = Manager

  /** RolesEnum.ToString(). */
  function EnumName(r: RolesEnum): string
  {
    match r
    case Manager => "Manager"
  }

  // ---------------------------------------------------------------------
  // 32-bit arithmetic of the paging parameters

  const TwoTo31: int := 0x8000_0000
  const TwoTo32: int := 0x1_0000_0000

  predicate IsInt32(x: int)
  {
    -TwoTo31 <= x < TwoTo31
  }

  /** Two's-complement wrap-around of a C# `int` result. */
  function Wrap32(x: int): (r: int)
    ensures IsInt32(r)
    ensures (r - x) % TwoTo32 == 0
    ensures IsInt32(x) ==> r == x
  {
    (x + TwoTo31) % TwoTo32 - TwoTo31
  }

  /** `(pageNumber - 1) * pageSize` evaluated in unchecked `int` arithmetic. */
  function PageOffset(pageNumber: int, pageSize: int): int
  {
    Wrap32(Wrap32(pageNumber - 1) * pageSize)
  }

  /** Where Skip(offset) starts in a list of length `n`: a negative skip
      skips nothing, and a skip past the end leaves nothing. */
  function PageStart(n: nat, offset: int): (from: nat)
    ensures from <= n
    ensures 0 <= offset <= n ==> from == offset
  {
    if offset < 0 then 0 else if offset > n then n else offset
  }

  /** Skip(offset).Take(size): a contiguous run of the list, empty when
      the size is not positive and never longer than the size. */
  function Page<T>(s: seq<T>, offset: int, size: int): (r: seq<T>)
    ensures PageStart(|s|, offset) + |r| <= |s|
    ensures r == s[PageStart(|s|, offset)..PageStart(|s|, offset) + |r|]
    ensures size <= 0 ==> r == []
    ensures size > 0 ==> |r| <= size
  {
    var from := PageStart(|s|, offset);
    var count := if size < 0 then 0 else if size > |s| - from then |s| - from else size;
    s[from..from + count]
  }

  /** With a non-negative offset and a positive size a page is the slice of
      the list from the offset, cut at the list's end. */
  lemma PageIsSlice<T>(s: seq<T>, offset: int, size: int)
    requires 0 <= offset && 0 < size
    ensures var from := if offset < |s| then offset else |s|;
      var to := if offset + size < |s| then offset + size else |s|;
      Page(s, offset, size) == s[from..to]
  {
  }

  /** For page numbers and sizes whose product fits in an `int`, the offset
      is the plain product. */
  lemma PageOffsetInRange(pageNumber: int, pageSize: int)
    requires 1 <= pageNumber < TwoTo31 && 1 <= pageSize && (pageNumber - 1) * pageSize < TwoTo31
    ensures PageOffset(pageNumber, pageSize) == PlainOffset(pageNumber, pageSize)
  {
  }

  /** `(pageNumber - 1) * pageSize` in unbounded arithmetic. */
  function PlainOffset(pageNumber: int, pageSize: int): nat
    requires 1 <= pageNumber && 0 <= pageSize
  {
    MulNonNegative(pageNumber - 1, pageSize);
    (pageNumber - 1) * pageSize
  }

  lemma MulNonNegative(a: int, b: int)
    requires 0 <= a && 0 <= b
    ensures 0 <= a * b
  {
  }

  /** Beyond the `int` range the offset wraps: page 65537 of size 65536
      starts at offset 0 again. */
  lemma PageOffsetWraps()
    ensures PageOffset(65537, 65536) == 0
  {
    assert Wrap32(65536) == 65536;
    assert 65536 * 65536 == TwoTo32;
  }

  // ---------------------------------------------------------------------
  // GetAllUsersAsync

  /** Matches users whose first or last name contains `query`. A null name
      is "" and so contains no non-empty query. */
  function MatchesQuery(query: string): User -> bool
  {
    (u: User) => Contains(u.firstName, query) || Contains(u.lastName, query)
  }

  /** The search step: no filter for an empty query; soft-deleted users are
      kept. */
  function SearchUsers(users: seq<User>, query: string): (r: seq<User>)
    ensures query == [] ==> r == users
    ensures forall u :: u in r <==> u in users && (query == [] || MatchesQuery(query)(u))
  {
    if query == [] then users else Filter(users, MatchesQuery(query))
  }

  function SortKey(u: User, byFirstName: bool): string
  {
    if byFirstName then u.firstName else u.lastName
  }

  /** `a` may precede `b` in the requested order. */
  predicate Before(a: User, b: User, byFirstName: bool, ascending: bool)
  {
    if ascending then LexLe(SortKey(a, byFirstName), SortKey(b, byFirstName))
    else LexLe(SortKey(b, byFirstName), SortKey(a, byFirstName))
  }

  lemma BeforeTotal(a: User, b: User, byFirstName: bool, ascending: bool)
    ensures Before(a, b, byFirstName, ascending) || Before(b, a, byFirstName, ascending)
  {
    LexLeTotal(SortKey(a, byFirstName), SortKey(b, byFirstName));
  }

  lemma BeforeTransitive(a: User, b: User, c: User, byFirstName: bool, ascending: bool)
    requires Before(a, b, byFirstName, ascending) && Before(b, c, byFirstName, ascending)
    ensures Before(a, c, byFirstName, ascending)
  {
    var ka, kb, kc := SortKey(a, byFirstName), SortKey(b, byFirstName), SortKey(c, byFirstName);
    if ascending {
      LexLeTransitive(ka, kb, kc);
    } else {
      LexLeTransitive(kc, kb, ka);
    }
  }

  ghost predicate SortedUsers(s: seq<User>, byFirstName: bool, ascending: bool)
  {
    forall i, j :: 0 <= i < j < |s| ==> Before(s[i], s[j], byFirstName, ascending)
  }

  /** Prepending a user that may precede every member keeps a list
      sorted. */
  lemma PrependSorted(x: User, s: seq<User>, byFirstName: bool, ascending: bool)
    requires SortedUsers(s, byFirstName, ascending)
    requires forall y :: y in s ==> Before(x, y, byFirstName, ascending)
    ensures SortedUsers([x] + s, byFirstName, ascending)
  {
    var r := [x] + s;
    forall i, j | 0 <= i < j < |r| ensures Before(r[i], r[j], byFirstName, ascending) {
      assert r[j] == s[j - 1] && s[j - 1] in s;
      if i > 0 {
        assert r[i] == s[i - 1];
      }
    }
  }

  lemma HeadBeforeAll(u: User, s: seq<User>, byFirstName: bool, ascending: bool)
    requires SortedUsers(s, byFirstName, ascending) && s != []
    requires Before(u, s[0], byFirstName, ascending)
    ensures forall y :: y in s ==> Before(u, y, byFirstName, ascending)
  {
    forall y | y in s ensures Before(u, y, byFirstName, ascending) {
      var k :| 0 <= k < |s| && s[k] == y;
      if k > 0 {
        BeforeTransitive(u, s[0], y, byFirstName, ascending);
      }
    }
  }

  lemma RestAfterHead(u: User, s: seq<User>, rest: seq<User>, byFirstName: bool, ascending: bool)
    requires SortedUsers(s, byFirstName, ascending) && s != []
    requires Before(s[0], u, byFirstName, ascending)
    requires multiset(rest) == multiset(s[1..]) + multiset{u}
    ensures forall x :: x in rest ==> Before(s[0], x, byFirstName, ascending)
  {
    forall x | x in rest ensures Before(s[0], x, byFirstName, ascending) {
      assert x in multiset(rest);
      if x != u {
        assert x in multiset(s[1..]);
        var k :| 0 <= k < |s[1..]| && s[1..][k] == x;
        assert s[k + 1] == x;
      }
    }
  }

  lemma SortedUsersTail(s: seq<User>, byFirstName: bool, ascending: bool)
    requires SortedUsers(s, byFirstName, ascending) && s != []
    ensures SortedUsers(s[1..], byFirstName, ascending)
  {
    forall i, j | 0 <= i < j < |s[1..]| ensures Before(s[1..][i], s[1..][j], byFirstName, ascending) {
      assert s[1..][i] == s[i + 1] && s[1..][j] == s[j + 1];
    }
  }

  function InsertUserSorted(u: User, s: seq<User>, byFirstName: bool, ascending: bool): (r: seq<User>)
    requires SortedUsers(s, byFirstName, ascending)
    ensures multiset(r) == multiset(s) + multiset{u}
    ensures SortedUsers(r, byFirstName, ascending)
  {
    if s == [] then [u]
    else if Before(u, s[0], byFirstName, ascending) then
      HeadBeforeAll(u, s, byFirstName, ascending);
      PrependSorted(u, s, byFirstName, ascending);
      [u] + s
    else
      SortedUsersTail(s, byFirstName, ascending);
      var rest := InsertUserSorted(u, s[1..], byFirstName, ascending);
      BeforeTotal(u, s[0], byFirstName, ascending);
      RestAfterHead(u, s, rest, byFirstName, ascending);
      PrependSorted(s[0], rest, byFirstName, ascending);
      assert s == [s[0]] + s[1..];
      [s[0]] + rest
  }

  /** OrderBy / OrderByDescending on the chosen name column, with ordinal
      comparison. The result is some sorted rearrangement of the input; the
      order among users with equal keys is not relied upon. */
  function SortUsers(us: seq<User>, byFirstName: bool, ascending: bool): (r: seq<User>)
    ensures SortedUsers(r, byFirstName, ascending)
    ensures multiset(r) == multiset(us)
  {
    if us == [] then []
    else
      assert us == [us[0]] + us[1..];
      InsertUserSorted(us[0], SortUsers(us[1..], byFirstName, ascending), byFirstName, ascending)
  }

  /** The users GetAllUsersAsync sorts, before paging. */
  function SortedSearch(t: Tables, query: string, sortBy: string, sortOrder: string): seq<User>
  {
    SortUsers(SearchUsers(t.users, query), sortBy == "FirstName", sortOrder == "asc")
  }

  /** GetAllUsersAsync: always succeeds with one page of the sorted search. */
  function GetAllUsers(t: Tables, query: string, sortBy: string, sortOrder: string, pageNumber: int, pageSize: int): (r: ApiResponse<seq<User>>)
    requires IsInt32(pageNumber) && IsInt32(pageSize)
    ensures r.success && r.message == UserRetriveSuccessfully && r.data.Some?
    ensures |r.data.value| <= |SortedSearch(t, query, sortBy, sortOrder)|
    ensures pageSize <= 0 ==> r.data.value == []
    ensures pageSize > 0 ==> |r.data.value| <= pageSize
  {
    ApiResponse(true, UserRetriveSuccessfully,
      Some(Page(SortedSearch(t, query, sortBy, sortOrder), PageOffset(pageNumber, pageSize), pageSize)))
  }

  lemma PageWithin<T>(s: seq<T>, offset: int, size: int)
    ensures forall x :: x in Page(s, offset, size) ==> x in s
  {
    var page := Page(s, offset, size);
    var from := PageStart(|s|, offset);
    forall x | x in page ensures x in s {
      var k :| 0 <= k < |page| && page[k] == x;
      assert s[from + k] == x;
    }
  }

  lemma PageKeepsOrder(s: seq<User>, offset: int, size: int, byFirstName: bool, ascending: bool)
    requires SortedUsers(s, byFirstName, ascending)
    ensures SortedUsers(Page(s, offset, size), byFirstName, ascending)
  {
    var page := Page(s, offset, size);
    var from := PageStart(|s|, offset);
    forall i, j | 0 <= i < j < |page| ensures Before(page[i], page[j], byFirstName, ascending) {
      assert page[i] == s[from + i] && page[j] == s[from + j];
    }
  }

  /** Every listed user is a stored user that matches the query, soft-deleted
      or not, and the page is in the requested order. */
  lemma GetAllUsersSound(t: Tables, query: string, sortBy: string, sortOrder: string, pageNumber: int, pageSize: int)
    requires IsInt32(pageNumber) && IsInt32(pageSize)
    ensures var page := GetAllUsers(t, query, sortBy, sortOrder, pageNumber, pageSize).data.value;
      && (forall u :: u in page ==> u in t.users && (query == [] || MatchesQuery(query)(u)))
      && SortedUsers(page, sortBy == "FirstName", sortOrder == "asc")
  {
    var s := SortedSearch(t, query, sortBy, sortOrder);
    PageWithin(s, PageOffset(pageNumber, pageSize), pageSize);
    PageKeepsOrder(s, PageOffset(pageNumber, pageSize), pageSize, sortBy == "FirstName", sortOrder == "asc");
    forall u | u in s ensures u in SearchUsers(t.users, query) {
      assert u in multiset(s);
    }
  }

  /** The sorted search holds every matching user as often as the table
      does: with an empty query, every user, soft-deleted ones included. */
  lemma SortedSearchComplete(t: Tables, query: string, sortBy: string, sortOrder: string)
    ensures query == [] ==> multiset(SortedSearch(t, query, sortBy, sortOrder)) == multiset(t.users)
    ensures forall u :: u in t.users && (query == [] || MatchesQuery(query)(u)) ==>
      u in SortedSearch(t, query, sortBy, sortOrder)
  {
    var s := SortedSearch(t, query, sortBy, sortOrder);
    forall u | u in t.users && (query == [] || MatchesQuery(query)(u)) ensures u in s {
      assert u in multiset(SearchUsers(t.users, query));
    }
  }

  /** For ordinary paging parameters the page is the slice starting at
      `(pageNumber - 1) * pageSize`, of at most `pageSize` users. */
  lemma GetAllUsersPage(t: Tables, query: string, sortBy: string, sortOrder: string, pageNumber: int, pageSize: int)
    requires 1 <= pageNumber < TwoTo31 && 1 <= pageSize < TwoTo31
    requires PlainOffset(pageNumber, pageSize) < TwoTo31
    ensures var s := SortedSearch(t, query, sortBy, sortOrder);
      var start := PlainOffset(pageNumber, pageSize);
      var from := if start < |s| then start else |s|;
      var to := if start + pageSize < |s| then start + pageSize else |s|;
      GetAllUsers(t, query, sortBy, sortOrder, pageNumber, pageSize).data.value == s[from..to]
  {
    var s := SortedSearch(t, query, sortBy, sortOrder);
    var start := PlainOffset(pageNumber, pageSize);
    PageOffsetInRange(pageNumber, pageSize);
    assert GetAllUsers(t, query, sortBy, sortOrder, pageNumber, pageSize).data.value == Page(s, start, pageSize);
    PageIsSlice(s, start, pageSize);
  }

  // ---------------------------------------------------------------------
  // Lookups

  /** GetByIdAsync: FindAsync on the key, soft-deleted users included. */
  function GetById(t: Tables, id: Guid): (r: ApiResponse<User>)
    ensures r.success <==> exists k :: 0 <= k < |t.users| && t.users[k].id == id
    ensures r.success ==> (r.message == UserRetriveSuccessfully && r.data.Some?
      && r.data.value in t.users && r.data.value.id == id)
    ensures !r.success ==> r == Failure(UserNotFound)
  {
    match FirstIndex(t.users, UserKeyed(id))
    case None => Failure(UserNotFound)
    case Some(i) => ApiResponse(true, UserRetriveSuccessfully, Some(t.users[i]))
  }

  /** Matches users that are not soft-deleted and have exactly `email`. */
  function ActiveWithEmail(email: string): User -> bool
  {
    (u: User) => !u.isDeleted && u.email == email
  }

  /** GetUserByEmailAsync: the first user in table order that is not
      soft-deleted and has exactly this email. */
  function GetUserByEmail(t: Tables, email: string): (r: Option<User>)
    ensures r.None? <==> forall k :: 0 <= k < |t.users| ==> t.users[k].isDeleted || t.users[k].email != email
    ensures r.Some? ==> r.value in t.users && !r.value.isDeleted && r.value.email == email
    ensures r.Some? ==> exists i ::
      && 0 <= i < |t.users| && t.users[i] == r.value
      && forall k :: 0 <= k < i ==> t.users[k].isDeleted || t.users[k].email != email
  {
    match FirstIndex(t.users, ActiveWithEmail(email))
    case None => None
    case Some(i) => Some(t.users[i])
  }

  /** Matches users with exactly `email`, soft-deleted or not. */
  function HasEmail(email: string): User -> bool
  {
    (u: User) => u.email == email
  }

  /** Matches users whose phone equals `phone`. */
  function HasPhone(phone: Option<int>): User -> bool
  {
    (u: User) => u.phone == phone
  }

  /** Matches the UsersRoles rows of `userId`. */
  function OfUser(userId: Guid): UserRole -> bool
  {
    (ur: UserRole) => ur.userId == userId
  }

  // ---------------------------------------------------------------------
  // LoginUserAsync

  /** LoginUserAsync. `verifyPassword(password, hash)` stands for the
      password service and `generateToken(id, email, roleName)` for the
      token service. */
  function Login(t: Tables, request: LoginRequest,
                 verifyPassword: (string, string) -> bool,
                 generateToken: (string, string, Option<string>) -> string): (r: ApiResponse<LoginResponseDto>)
    ensures r.success <==>
      && GetUserByEmail(t, request.email).Some?
      && verifyPassword(request.password, GetUserByEmail(t, request.email).value.passwordHash)
      && FirstIndex(t.usersRoles, OfUser(GetUserByEmail(t, request.email).value.id)).Some?
    ensures GetUserByEmail(t, request.email).None? ==> r == Failure(InvalidCredentials)
    ensures GetUserByEmail(t, request.email).Some?
            && !verifyPassword(request.password, GetUserByEmail(t, request.email).value.passwordHash) ==>
      r == Failure(InvalidCredentials)
    ensures GetUserByEmail(t, request.email).Some?
            && verifyPassword(request.password, GetUserByEmail(t, request.email).value.passwordHash)
            && FirstIndex(t.usersRoles, OfUser(GetUserByEmail(t, request.email).value.id)).None? ==>
      r == Failure(UserRoleNotAssigned)
    ensures r.success ==> r.message == UserLoginSuccessfully && r.data.Some?
    ensures r.success ==>
      var user := GetUserByEmail(t, request.email).value;
      var d := r.data.value;
      && d.id == user.id && d.firstName == user.firstName && d.lastName == user.lastName
      && d.email == user.email && d.phone == user.phone
      && d.token == generateToken(GuidText(user.id), user.email, d.roleName)
  {
    match GetUserByEmail(t, request.email)
    case None => Failure(InvalidCredentials)
    case Some(user) =>
      if !verifyPassword(request.password, user.passwordHash) then Failure(InvalidCredentials)
      else
        match FirstIndex(t.usersRoles, OfUser(user.id))
        case None => Failure(UserRoleNotAssigned)
        case Some(i) =>
          var roleId := t.usersRoles[i].roleId;
          var roleName := RoleNameOf(t.roles, roleId);
          var token := generateToken(GuidText(user.id), user.email, roleName);
          ApiResponse(true, UserLoginSuccessfully,
            Some(LoginResponseDto(user.id, user.firstName, user.lastName, user.email, user.phone, roleId, roleName, token)))
  }

  /** An unknown email, a soft-deleted account and a wrong password all
      give the same answer. */
  lemma LoginFailuresLookAlike(t: Tables, request: LoginRequest,
                               verifyPassword: (string, string) -> bool,
                               generateToken: (string, string, Option<string>) -> string)
    requires forall k :: 0 <= k < |t.users| ==>
      t.users[k].isDeleted || t.users[k].email != request.email
      || !verifyPassword(request.password, t.users[k].passwordHash)
    ensures Login(t, request, verifyPassword, generateToken) == Failure(InvalidCredentials)
  {
    match FirstIndex(t.users, ActiveWithEmail(request.email))
    case None =>
    case Some(i) =>
      assert !verifyPassword(request.password, t.users[i].passwordHash);
  }

  /** A successful login names the account's first UsersRoles row, in table
      order, and the user that logged in is active with that email. */
  lemma LoginReportsFirstRole(t: Tables, request: LoginRequest,
                              verifyPassword: (string, string) -> bool,
                              generateToken: (string, string, Option<string>) -> string)
    requires Login(t, request, verifyPassword, generateToken).success
    ensures var d := Login(t, request, verifyPassword, generateToken).data.value;
      && (exists k :: 0 <= k < |t.users| && t.users[k].id == d.id && !t.users[k].isDeleted
                      && t.users[k].email == request.email)
      && (exists i :: 0 <= i < |t.usersRoles| && t.usersRoles[i].userId == d.id && t.usersRoles[i].roleId == d.roleId
                      && forall k :: 0 <= k < i ==> t.usersRoles[k].userId != d.id)
      && d.roleName == RoleNameOf(t.roles, d.roleId)
  {
    var user := GetUserByEmail(t, request.email).value;
    var i := FirstIndex(t.usersRoles, OfUser(user.id)).value;
    assert OfUser(user.id)(t.usersRoles[i]);
    assert forall k :: 0 <= k < i ==> !OfUser(user.id)(t.usersRoles[k]);
  }

  // ---------------------------------------------------------------------
  // AddUserAsync

  /** The user AutoMapper builds from an AddUser request, with the hashing
      results and a missing phone stored as 0. Its key is Guid.Empty until
      the store assigns one. */
  function NewUser(dto: AddUser, passwordHash: string, passwordSalt: string): User
  {
    User(EmptyGuid, dto.firstName, dto.lastName, dto.email,
         Some(if dto.phone.Some? then dto.phone.value else 0), passwordHash, passwordSalt, false)
  }

  /** The user a RegisterRequest maps to: only the email is copied. */
  function RegisteredUser(request: RegisterRequest, passwordHash: string, passwordSalt: string): User
  {
    User(EmptyGuid, "", "", request.email, None, passwordHash, passwordSalt, false)
  }

  /** `after` is the Users table of `t` plus one row: `template` under a
      fresh key. */
  ghost predicate AppendsUser(t: Tables, after: seq<User>, template: User)
  {
    var n := |t.users|;
    && |after| == n + 1
    && after[..n] == t.users
    && after[n] == template.(id := after[n].id)
    && after[n].id != EmptyGuid && t.IdUnused(after[n].id)
  }

  /** The failure AddUserAsync reports before inserting anything, if any. */
  function AddUserRejection(t: Tables, dto: AddUser, userrole: string): (m: Option<string>)
    ensures m.None? <==>
      && userrole == AdminRole
      && (forall k :: 0 <= k < |t.users| ==> t.users[k].email != dto.email)
      && (dto.phone.Some? ==> forall k :: 0 <= k < |t.users| ==> t.users[k].phone != dto.phone)
  {
    if userrole != AdminRole then Some(RestrictedByAdmin)
    else if FirstIndex(t.users, HasEmail(dto.email)).Some? then Some(UserAlreadyExist)
    else if dto.phone.Some? && FirstIndex(t.users, HasPhone(dto.phone)).Some? then Some(UserWithPhoneNumberAlreadyExist)
    else None
  }

  /** Matches role ids no Roles row has. */
  function Missing(roles: seq<Role>): Guid -> bool
  {
    (g: Guid) => FirstIndex(roles, RoleKeyed(g)).None?
  }

  function RoleMissingMessage(roleId: Guid): string
  {
    "Role with ID '" + GuidText(roleId) + "' not found."
  }

  /** The failure of the role step of AddUserAsync, if any: no role ids at
      all, or the first listed id no role has. */
  function RoleStepFailure(roles: seq<Role>, roleIds: Option<seq<Guid>>): (m: Option<string>)
    ensures m.None? <==> (roleIds.Some? && |roleIds.value| > 0
      && forall k :: 0 <= k < |roleIds.value| ==> exists j :: 0 <= j < |roles| && roles[j].id == roleIds.value[k])
  {
    if roleIds.None? || |roleIds.value| == 0 then Some(RoleNotFound)
    else
      match FirstIndex(roleIds.value, Missing(roles))
      case Some(i) => Some(RoleMissingMessage(roleIds.value[i]))
      case None =>
        assert forall k :: 0 <= k < |roleIds.value| ==> !Missing(roles)(roleIds.value[k]);
        None
  }

  /** The name of the role with key `roleId`. */
  function NameOfRole(roles: seq<Role>, roleId: Guid): string
  {
    match FirstIndex(roles, RoleKeyed(roleId))
    case None => ""
    case Some(j) => roles[j].name
  }

  /** The assigned-roles list of the response: one entry per listed id,
      in order (see RoleDtosAt). */
  function RoleDtos(roles: seq<Role>, roleIds: seq<Guid>): (r: seq<UserRoleDto>)
    ensures |r| == |roleIds|
  {
    if roleIds == [] then []
    else RoleDtos(roles, roleIds[..|roleIds| - 1]) + [UserRoleDto(roleIds[|roleIds| - 1], NameOfRole(roles, roleIds[|roleIds| - 1]))]
  }

  /** Entry `k` names the `k`-th listed role id and that role's name. */
  lemma {:induction false} RoleDtosAt(roles: seq<Role>, roleIds: seq<Guid>, k: nat)
    requires k < |roleIds|
    ensures RoleDtos(roles, roleIds)[k] == UserRoleDto(roleIds[k], NameOfRole(roles, roleIds[k]))
    decreases |roleIds|
  {
    var n := |roleIds| - 1;
    if k < n {
      RoleDtosAt(roles, roleIds[..n], k);
    }
  }

  lemma RoleDtosSnoc(roles: seq<Role>, roleIds: seq<Guid>, i: nat)
    requires i < |roleIds|
    ensures RoleDtos(roles, roleIds[..i + 1])
      == RoleDtos(roles, roleIds[..i]) + [UserRoleDto(roleIds[i], NameOfRole(roles, roleIds[i]))]
  {
    assert roleIds[..i + 1][..i] == roleIds[..i];
  }

  /** `row` gives `roleId` to `userId` under a key at or above `bound`. */
  ghost predicate UserRoleRow(row: UserRole, userId: Guid, roleId: Guid, bound: Guid)
  {
    row.userId == userId && row.roleId == roleId && bound <= row.id
  }

  /** `after` is the UsersRoles table of `t` followed by one row per entry
      of `roleIds`, in order, each giving that role to `userId` under a key
      no row of `t` uses. */
  ghost predicate AppendsUserRoles(t: Tables, after: seq<UserRole>, userId: Guid, roleIds: seq<Guid>)
  {
    var n := |t.usersRoles|;
    && |after| == n + |roleIds|
    && after[..n] == t.usersRoles
    && forall k :: 0 <= k < |roleIds| ==>
         && after[n + k].userId == userId
         && after[n + k].roleId == roleIds[k]
         && t.IdUnused(after[n + k].id)
  }

  /** `added` holds one row per entry of `roleIds`, each giving that role
      to `userId` under a key at or above `bound`. */
  ghost predicate RowsFor(added: seq<UserRole>, userId: Guid, roleIds: seq<Guid>, bound: Guid)
  {
    |added| == |roleIds| && forall k :: 0 <= k < |added| ==> UserRoleRow(added[k], userId, roleIds[k], bound)
  }

  lemma RowsForSnoc(added: seq<UserRole>, row: UserRole, userId: Guid, roleIds: seq<Guid>, i: nat, bound: Guid)
    requires i < |roleIds| && RowsFor(added, userId, roleIds[..i], bound)
    requires UserRoleRow(row, userId, roleIds[i], bound)
    ensures RowsFor(added + [row], userId, roleIds[..i + 1], bound)
  {
    var longer := added + [row];
    var ids := roleIds[..i + 1];
    forall k | 0 <= k < |longer| ensures UserRoleRow(longer[k], userId, ids[k], bound) {
      if k < i {
        assert longer[k] == added[k] && ids[k] == roleIds[..i][k];
      }
    }
  }

  lemma AppendedUserRolesAreFresh(t: Tables, bound: Guid, added: seq<UserRole>, userId: Guid, roleIds: seq<Guid>)
    requires t.KeysBelow(bound) && RowsFor(added, userId, roleIds, bound)
    ensures AppendsUserRoles(t, t.usersRoles + added, userId, roleIds)
  {
    var after := t.usersRoles + added;
    var n := |t.usersRoles|;
    assert after[..n] == t.usersRoles;
    forall k | 0 <= k < |roleIds|
      ensures after[n + k] == added[k] && t.IdUnused(added[k].id)
    {
      assert UserRoleRow(added[k], userId, roleIds[k], bound);
      AboveBoundUnused(t, bound, added[k].id);
    }
  }

  /** The response of a successful AddUserAsync for the stored user `u`. */
  function AddedResponse(u: User, roleDtos: seq<UserRoleDto>): AddUserResponseDto
  {
    AddUserResponseDto(u.id, u.firstName, u.lastName, u.email,
                       if u.phone.Some? then u.phone.value else 0,
                       u.passwordHash, u.passwordSalt, Some(roleDtos))
  }

  /** What AddUserAsync does, from the tables `t` before the call to the
      tables `after` it leaves and the response `r`. The user row is saved
      before the role step, so it persists when that step fails; the role
      rows are saved only when every listed role exists. */
  ghost predicate AddUserEffect(t: Tables, after: Tables, dto: AddUser, userrole: string,
                                passwordHash: string, passwordSalt: string, r: ApiResponse<AddUserResponseDto>)
  {
    match AddUserRejection(t, dto, userrole)
    case Some(message) => r == Failure(message) && after == t
    case None =>
      && AppendsUser(t, after.users, NewUser(dto, passwordHash, passwordSalt))
      && var u := after.users[|t.users|];
         match RoleStepFailure(t.roles, dto.roles)
         case Some(message) => r == Failure(message) && after == t.(users := after.users)
         case None =>
           && after == t.(users := after.users, usersRoles := after.usersRoles)
           && AppendsUserRoles(t.(users := after.users), after.usersRoles, u.id, dto.roles.value)
           && r == ApiResponse(true, UserAddedSuccessfully, Some(AddedResponse(u, RoleDtos(t.roles, dto.roles.value))))
  }

  /** The three ways AddUserAsync can end, each an instance of AddUserEffect. */
  lemma AddUserRefused(t: Tables, dto: AddUser, userrole: string, passwordHash: string, passwordSalt: string)
    requires AddUserRejection(t, dto, userrole).Some?
    ensures AddUserEffect(t, t, dto, userrole, passwordHash, passwordSalt, Failure(AddUserRejection(t, dto, userrole).value))
  {
  }

  lemma AddUserRolesRefused(t: Tables, after: Tables, dto: AddUser, userrole: string, passwordHash: string, passwordSalt: string)
    requires AddUserRejection(t, dto, userrole).None?
    requires AppendsUser(t, after.users, NewUser(dto, passwordHash, passwordSalt)) && after == t.(users := after.users)
    requires RoleStepFailure(t.roles, dto.roles).Some?
    ensures AddUserEffect(t, after, dto, userrole, passwordHash, passwordSalt, Failure(RoleStepFailure(t.roles, dto.roles).value))
  {
  }

  lemma AddUserSucceeded(t: Tables, after: Tables, dto: AddUser, userrole: string, passwordHash: string, passwordSalt: string)
    requires AddUserRejection(t, dto, userrole).None?
    requires AppendsUser(t, after.users, NewUser(dto, passwordHash, passwordSalt))
    requires RoleStepFailure(t.roles, dto.roles).None?
    requires after == t.(users := after.users, usersRoles := after.usersRoles)
    requires AppendsUserRoles(t.(users := after.users), after.usersRoles, after.users[|t.users|].id, dto.roles.value)
    ensures AddUserEffect(t, after, dto, userrole, passwordHash, passwordSalt,
      ApiResponse(true, UserAddedSuccessfully, Some(AddedResponse(after.users[|t.users|], RoleDtos(t.roles, dto.roles.value)))))
  {
  }

  /** A caller whose role string is not exactly "Admin" changes nothing. */
  lemma AddUserNeedsAdmin(t: Tables, after: Tables, dto: AddUser, userrole: string,
                          passwordHash: string, passwordSalt: string, r: ApiResponse<AddUserResponseDto>)
    requires AddUserEffect(t, after, dto, userrole, passwordHash, passwordSalt, r)
    requires userrole != AdminRole
    ensures after == t && r == Failure(RestrictedByAdmin)
  {
  }

  /** When the role step fails the new user stays saved, without any
      UsersRoles row. */
  lemma AddUserKeepsUserWhenRolesFail(t: Tables, after: Tables, dto: AddUser, userrole: string,
                                      passwordHash: string, passwordSalt: string, r: ApiResponse<AddUserResponseDto>)
    requires AddUserEffect(t, after, dto, userrole, passwordHash, passwordSalt, r)
    requires AddUserRejection(t, dto, userrole).None? && RoleStepFailure(t.roles, dto.roles).Some?
    ensures !r.success && |after.users| == |t.users| + 1 && after.usersRoles == t.usersRoles
    ensures after.users[|t.users|].email == dto.email
  {
  }

  /** A user added successfully is the one GetUserByEmailAsync finds for
      that email afterwards. */
  lemma AddedUserFoundByEmail(t: Tables, after: Tables, dto: AddUser, userrole: string,
                              passwordHash: string, passwordSalt: string, r: ApiResponse<AddUserResponseDto>)
    requires AddUserEffect(t, after, dto, userrole, passwordHash, passwordSalt, r)
    requires AddUserRejection(t, dto, userrole).None?
    ensures GetUserByEmail(after, dto.email) == Some(after.users[|t.users|])
  {
    var n := |t.users|;
    forall k | 0 <= k < n ensures !ActiveWithEmail(dto.email)(after.users[k]) {
      assert after.users[k] == after.users[..n][k] == t.users[k];
    }
    assert ActiveWithEmail(dto.email)(after.users[n]);
  }

  /** A second AddUserAsync with the same email is refused. */
  lemma AddUserTwiceRefused(t: Tables, after: Tables, dto: AddUser, dto2: AddUser, userrole: string,
                            passwordHash: string, passwordSalt: string, r: ApiResponse<AddUserResponseDto>)
    requires AddUserEffect(t, after, dto, userrole, passwordHash, passwordSalt, r)
    requires AddUserRejection(t, dto, userrole).None? && dto2.email == dto.email
    ensures AddUserRejection(after, dto2, userrole) == Some(UserAlreadyExist)
  {
    assert HasEmail(dto2.email)(after.users[|t.users|]);
  }

  // ---------------------------------------------------------------------
  // UpdateAsync and AddOrEditUserAsync

  /** The user after UpdateAsync: exactly FirstName, LastName, Email and
      Phone are overwritten. */
  function Edited(u: User, update: UpdateUser): (e: User)
    ensures e.id == u.id && e.passwordHash == u.passwordHash && e.passwordSalt == u.passwordSalt
    ensures e.isDeleted == u.isDeleted
    ensures e.firstName == update.firstName && e.lastName == update.lastName
    ensures e.email == update.email && e.phone == Some(update.phone)
  {
    u.(firstName := update.firstName, lastName := update.lastName, email := update.email, phone := Some(update.phone))
  }

  /** What UpdateAsync does. The response carries no role list. */
  ghost predicate UpdateEffect(t: Tables, after: Tables, id: Guid, update: UpdateUser, userrole: string,
                               r: ApiResponse<AddUserResponseDto>)
  {
    if userrole != AdminRole then r == Failure(RestrictedByAdmin) && after == t
    else
      match FirstIndex(t.users, UserKeyed(id))
      case None => r == Failure(UserNotFound) && after == t
      case Some(i) =>
        var e := Edited(t.users[i], update);
        && after == t.(users := t.users[i := e])
        && r == ApiResponse(true, UserUpdatedSuccessfully,
             Some(AddUserResponseDto(e.id, e.firstName, e.lastName, e.email, update.phone,
                                     e.passwordHash, e.passwordSalt, None)))
  }

  /** After a successful update, GetByIdAsync returns the edited user. */
  lemma UpdateThenGetById(t: Tables, after: Tables, id: Guid, update: UpdateUser, userrole: string,
                          r: ApiResponse<AddUserResponseDto>)
    requires UpdateEffect(t, after, id, update, userrole, r) && r.success
    requires UniqueUserIds(t.users)
    ensures var i := FirstIndex(t.users, UserKeyed(id));
      i.Some? && GetById(after, id) == ApiResponse(true, UserRetriveSuccessfully, Some(Edited(t.users[i.value], update)))
  {
    var i := FirstIndex(t.users, UserKeyed(id)).value;
    assert after.users[i].id == id;
  }

  // ---------------------------------------------------------------------
  // RegisterUserAsync

  /** Matches roles whose lower-cased name is `key`. */
  function LowerNameIs(key: string): Role -> bool
  {
    (ro: Role) => ToLower(ro.name) == key
  }

  /** The default-role lookup of RegisterUserAsync with comparison key
      `key`: the first role whose lower-cased name equals it. */
  function DefaultRoleIndex(roles: seq<Role>, key: string): (i: Option<nat>)
    ensures i.Some? ==> i.value < |roles| && ToLower(roles[i.value].name) == key
    ensures i.None? <==> forall k :: 0 <= k < |roles| ==> ToLower(roles[k].name) != key
  {
    FirstIndex(roles, LowerNameIs(key))
  }

  /** The key the source compares with: RolesEnum.Manager.ToString(),
      which is not lower-case, so no lower-cased name equals it. */
  lemma ManagerKeyNeverMatches(roles: seq<Role>)
    ensures DefaultRoleIndex(roles, EnumName(Manager)).None?
  {
    forall k | 0 <= k < |roles| ensures ToLower(roles[k].name) != EnumName(Manager) {
      if |roles[k].name| > 0 {
        ToLowerHasNoUpper(roles[k].name, 0);
      }
    }
  }

  /** The evidently intended key: the lower-cased enum name. */
  const DefaultRoleKey: string := "manager"

  lemma DefaultRoleKeyIsLowerManager()
    ensures DefaultRoleKey == ToLower(EnumName(Manager))
  {
    assert ToLower(EnumName(Manager)) == ['m'] + ToLower("anager");
  }

  /** With the intended key, a role named "Manager" in any letter case is
      found, and the first such role in table order is the one used. */
  lemma DefaultRoleKeyFindsManager(roles: seq<Role>, j: nat)
    requires j < |roles| && ToLower(roles[j].name) == ToLower(EnumName(Manager))
    ensures DefaultRoleIndex(roles, DefaultRoleKey).Some?
    ensures DefaultRoleIndex(roles, DefaultRoleKey).value <= j
  {
    DefaultRoleKeyIsLowerManager();
    assert LowerNameIs(DefaultRoleKey)(roles[j]);
  }

  // ---------------------------------------------------------------------
  // The repository

  class UserRepository {
    const db: IdentityStore

    constructor (db: IdentityStore)
      ensures this.db == db
    {
      this.db := db;
    }

    /** AddUserAsync. `passwordHash` and `passwordSalt` are what the
        password service returns for the request's password. */
    method AddUser(userDto: AddUser, userrole: string, passwordHash: string, passwordSalt: string)
      returns (r: ApiResponse<AddUserResponseDto>)
      requires db.Valid()
      modifies db
      ensures db.Valid()
      ensures AddUserEffect(old(db.Snapshot()), db.Snapshot(), userDto, userrole, passwordHash, passwordSalt, r)
    {
      ghost var t := db.Snapshot();
      var rejection := AddUserRejection(db.Snapshot(), userDto, userrole);
      if rejection.Some? {
        AddUserRefused(t, userDto, userrole, passwordHash, passwordSalt);
        return Failure(rejection.value);
      }
      var user := SaveNewUser(NewUser(userDto, passwordHash, passwordSalt));
      if userDto.roles.None? || |userDto.roles.value| == 0 {
        AddUserRolesRefused(t, db.Snapshot(), userDto, userrole, passwordHash, passwordSalt);
        return Failure(RoleNotFound);
      }
      var roleDtos, missing := AddUserRoles(user.id, userDto.roles.value);
      if missing.Some? {
        AddUserRolesRefused(t, db.Snapshot(), userDto, userrole, passwordHash, passwordSalt);
        return Failure(RoleMissingMessage(userDto.roles.value[missing.value]));
      }
      AddUserSucceeded(t, db.Snapshot(), userDto, userrole, passwordHash, passwordSalt);
      r := ApiResponse(true, UserAddedSuccessfully, Some(AddedResponse(user, roleDtos)));
    }

    /** Saves one new user built from `template` under a fresh key. */
    method SaveNewUser(template: User) returns (user: User)
      requires db.Valid()
      modifies db
      ensures db.Valid()
      ensures db.Snapshot() == old(db.Snapshot()).(users := db.users)
      ensures AppendsUser(old(db.Snapshot()), db.users, template)
      ensures |db.users| == |old(db.users)| + 1 && user == db.users[|old(db.users)|]
    {
      ghost var t := db.Snapshot();
      var id := db.NewGuid();
      user := template.(id := id);
      db.InsertUser(user);
      assert db.users[..|t.users|] == t.users;
    }

    /** The role loop of AddUserAsync: one pending UsersRoles row per listed
        role id. At the first id no role has, the pending rows are dropped
        unsaved and its index is reported; otherwise all are saved. */
    method AddUserRoles(userId: Guid, roleIds: seq<Guid>) returns (roleDtos: seq<UserRoleDto>, missing: Option<nat>)
      requires db.Valid()
      modifies db
      ensures db.Valid()
      ensures missing == FirstIndex(roleIds, Missing(old(db.roles)))
      ensures missing.Some? ==> db.Snapshot() == old(db.Snapshot())
      ensures missing.None? ==>
        && db.Snapshot() == old(db.Snapshot()).(usersRoles := db.usersRoles)
        && AppendsUserRoles(old(db.Snapshot()), db.usersRoles, userId, roleIds)
        && roleDtos == RoleDtos(old(db.roles), roleIds)
    {
      ghost var t := db.Snapshot();
      ghost var added;
      roleDtos, missing, added := PendRoles(userId, roleIds);
      if missing.None? {
        AppendedUserRolesAreFresh(t, old(db.nextGuid), added, userId, roleIds);
      }
    }

    /** The loop itself: `added` are the pending rows, each keyed at or
        above the key counter on entry. */
    method PendRoles(userId: Guid, roleIds: seq<Guid>)
      returns (roleDtos: seq<UserRoleDto>, missing: Option<nat>, ghost added: seq<UserRole>)
      requires db.Valid()
      modifies db
      ensures db.Valid()
      ensures missing == FirstIndex(roleIds, Missing(old(db.roles)))
      ensures missing.Some? ==> db.Snapshot() == old(db.Snapshot())
      ensures missing.None? ==>
        && db.Snapshot() == old(db.Snapshot()).(usersRoles := old(db.usersRoles) + added)
        && RowsFor(added, userId, roleIds, old(db.nextGuid))
        && roleDtos == RoleDtos(old(db.roles), roleIds)
    {
      ghost var t := db.Snapshot();
      var saved := db.usersRoles;
      var roles := db.roles;
      var i := 0;
      roleDtos := [];
      added := [];
      while i < |roleIds|
        invariant 0 <= i <= |roleIds|
        invariant db.Valid() && old(db.nextGuid) <= db.nextGuid
        invariant db.Snapshot() == t.(usersRoles := saved + added)
        invariant FirstIndex(roleIds[..i], Missing(roles)).None?
        invariant RowsFor(added, userId, roleIds[..i], old(db.nextGuid))
        invariant roleDtos == RoleDtos(roles, roleIds[..i])
      {
        if FirstIndex(roles, RoleKeyed(roleIds[i])).None? {
          FirstIndexPrefixHit(roleIds, Missing(roles), i);
          DropPending(saved);
          return roleDtos, Some(i), added;
        }
        FirstIndexPrefixNone(roleIds, Missing(roles), i);
        var row, dto := AssignRole(userId, roleIds, i, roles, t, saved, added, old(db.nextGuid));
        added := added + [row];
        RoleDtosSnoc(roles, roleIds, i);
        roleDtos := roleDtos + [dto];
        i := i + 1;
      }
      assert roleIds[..i] == roleIds;
      missing := None;
    }

    /** One iteration for a role that exists: a pending UsersRoles row for
        the `i`-th listed id under a fresh key, and the role's entry of the
        response. */
    method AssignRole(userId: Guid, roleIds: seq<Guid>, i: nat, roles: seq<Role>, ghost t: Tables,
                      ghost saved: seq<UserRole>, ghost added: seq<UserRole>, ghost bound: Guid)
      returns (row: UserRole, dto: UserRoleDto)
      requires db.Valid() && bound <= db.nextGuid
      requires i < |roleIds| && FirstIndex(roles, RoleKeyed(roleIds[i])).Some?
      requires db.Snapshot() == t.(usersRoles := saved + added)
      requires RowsFor(added, userId, roleIds[..i], bound)
      modifies db
      ensures db.Valid() && old(db.nextGuid) <= db.nextGuid
      ensures db.Snapshot() == t.(usersRoles := saved + (added + [row]))
      ensures RowsFor(added + [row], userId, roleIds[..i + 1], bound)
      ensures dto == UserRoleDto(roleIds[i], NameOfRole(roles, roleIds[i]))
    {
      var role := FirstIndex(roles, RoleKeyed(roleIds[i])).value;
      row := AddUserRole(userId, roles[role].id, bound);
      dto := UserRoleDto(roles[role].id, roles[role].name);
      RowsForSnoc(added, row, userId, roleIds, i, bound);
      assert saved + (added + [row]) == (saved + added) + [row];
    }

    /** Discards the pending UsersRoles rows, keeping the saved prefix
        `kept`. */
    method DropPending(kept: seq<UserRole>)
      requires db.Valid() && kept <= db.usersRoles
      modifies db
      ensures db.Valid() && db.nextGuid == old(db.nextGuid)
      ensures db.Snapshot() == old(db.Snapshot()).(usersRoles := kept)
    {
      assert db.usersRoles[..|kept|] == kept;
      db.TruncateUserRoles(|kept|);
    }

    /** One pending UsersRoles row under a fresh key. */
    method AddUserRole(userId: Guid, roleId: Guid, ghost bound: Guid) returns (row: UserRole)
      requires db.Valid() && bound <= db.nextGuid
      modifies db
      ensures db.Valid() && old(db.nextGuid) <= db.nextGuid
      ensures db.Snapshot() == old(db.Snapshot()).(usersRoles := old(db.usersRoles) + [row])
      ensures UserRoleRow(row, userId, roleId, bound)
    {
      var id := db.NewGuid();
      row := UserRole(id, userId, roleId);
      db.InsertUserRole(row);
    }

    /** UpdateAsync: overwrites the four contact fields of the user with
        key `id`; neither email nor phone uniqueness is checked. */
    method Update(id: Guid, updateUser: UpdateUser, userrole: string) returns (r: ApiResponse<AddUserResponseDto>)
      requires db.Valid()
      modifies db
      ensures db.Valid()
      ensures UpdateEffect(old(db.Snapshot()), db.Snapshot(), id, updateUser, userrole, r)
    {
      if userrole != AdminRole {
        return Failure(RestrictedByAdmin);
      }
      var found := FirstIndex(db.users, UserKeyed(id));
      if found.None? {
        return Failure(UserNotFound);
      }
      var e := Edited(db.users[found.value], updateUser);
      db.ReplaceUserAt(found.value, e);
      r := ApiResponse(true, UserUpdatedSuccessfully,
             Some(AddUserResponseDto(e.id, e.firstName, e.lastName, e.email, updateUser.phone,
                                     e.passwordHash, e.passwordSalt, None)));
    }

    /** AddOrEditUserAsync: adds when `id` is null or Guid.Empty; otherwise
        reports UserNotFound for an unknown key, before any role check, and
        else delegates to UpdateAsync. The response is the delegate's. */
    method AddOrEditUser(id: Option<Guid>, userDto: UpsertDto, role: string, passwordHash: string, passwordSalt: string)
      returns (r: ApiResponse<AddUserResponseDto>)
      requires db.Valid()
      modifies db
      ensures db.Valid()
      ensures (id.None? || id.value == EmptyGuid) ==>
        AddUserEffect(old(db.Snapshot()), db.Snapshot(), ToAddUser(userDto), role, passwordHash, passwordSalt, r)
      ensures (id.Some? && id.value != EmptyGuid) ==>
        if FirstIndex(old(db.users), UserKeyed(id.value)).None? then
          r == Failure(UserNotFound) && db.Snapshot() == old(db.Snapshot())
        else
          UpdateEffect(old(db.Snapshot()), db.Snapshot(), id.value, ToUpdateUser(userDto), role, r)
    {
      if id.None? || id.value == EmptyGuid {
        var response := AddUser(ToAddUser(userDto), role, passwordHash, passwordSalt);
        if !response.success {
          return ApiResponse(false, response.message, None);
        }
        return ApiResponse(true, UserAddedSuccessfully, response.data);
      }
      if FirstIndex(db.users, UserKeyed(id.value)).None? {
        return Failure(UserNotFound);
      }
      var response := Update(id.value, ToUpdateUser(userDto), role);
      if !response.success {
        return ApiResponse(false, response.message, None);
      }
      r := ApiResponse(true, UserUpdatedSuccessfully, response.data);
    }

    /** RegisterUserAsync with default-role comparison key `roleKey` (the
        source uses RolesEnum.Manager.ToString(); see DefaultRoleKey). The
        user is saved before the role lookup, so it persists when no role
        matches. */
    method RegisterUser(request: RegisterRequest, passwordHash: string, passwordSalt: string, roleKey: string)
      returns (r: ApiResponse<User>)
      requires db.Valid()
      modifies db
      ensures db.Valid()
      ensures FirstIndex(old(db.users), HasEmail(request.email)).Some? ==>
        r == Failure(UserAlreadyExist) && db.Snapshot() == old(db.Snapshot())
      ensures FirstIndex(old(db.users), HasEmail(request.email)).None? ==>
        && AppendsUser(old(db.Snapshot()), db.users, RegisteredUser(request, passwordHash, passwordSalt))
        && var u := db.users[|old(db.users)|];
           match DefaultRoleIndex(old(db.roles), roleKey)
           case None =>
             r == Failure(DefaultRoleNotFound) && db.Snapshot() == old(db.Snapshot()).(users := db.users)
           case Some(j) =>
             && r == ApiResponse(true, UserRegisterSuccessfully, Some(u))
             && db.Snapshot() == old(db.Snapshot()).(users := db.users, usersRoles := db.usersRoles)
             && AppendsUserRoles(old(db.Snapshot()).(users := db.users), db.usersRoles, u.id, [old(db.roles)[j].id])
    {
      if FirstIndex(db.users, HasEmail(request.email)).Some? {
        return Failure(UserAlreadyExist);
      }
      ghost var t := db.Snapshot();
      var user := SaveNewUser(RegisteredUser(request, passwordHash, passwordSalt));
      var managerRole := GrantDefaultRole(user.id, roleKey);
      if managerRole.None? {
        return Failure(DefaultRoleNotFound);
      }
      r := ApiResponse(true, UserRegisterSuccessfully, Some(user));
    }

    /** The default-role step of RegisterUserAsync: the first role whose
        lower-cased name is `roleKey`, if any, is given to the user under a
        fresh key. */
    method GrantDefaultRole(userId: Guid, roleKey: string) returns (j: Option<nat>)
      requires db.Valid()
      modifies db
      ensures db.Valid()
      ensures j == DefaultRoleIndex(old(db.roles), roleKey)
      ensures j.None? ==> db.Snapshot() == old(db.Snapshot())
      ensures j.Some? ==>
        && db.Snapshot() == old(db.Snapshot()).(usersRoles := db.usersRoles)
        && AppendsUserRoles(old(db.Snapshot()), db.usersRoles, userId, [old(db.roles)[j.value].id])
    {
      j := DefaultRoleIndex(db.roles, roleKey);
      if j.None? {
        return;
      }
      ghost var t := db.Snapshot();
      ghost var bound := db.nextGuid;
      var row := AddUserRole(userId, db.roles[j.value].id, bound);
      AppendedUserRolesAreFresh(t, bound, [row], userId, [t.roles[j.value].id]);
    }

    /** DeleteAsync: removes the user row outright; the soft-delete flag is
        not used. */
    method Delete(id: Guid, userrole: string) returns (r: ApiResponse<User>)
      requires db.Valid()
      modifies db
      ensures db.Valid()
      ensures userrole != AdminRole ==> r == Failure(RestrictedByAdmin) && db.Snapshot() == old(db.Snapshot())
      ensures userrole == AdminRole ==>
        match FirstIndex(old(db.users), UserKeyed(id))
        case None => r == Failure(UserNotFound) && db.Snapshot() == old(db.Snapshot())
        case Some(i) =>
          && r == ApiResponse(true, UserDeleteSuccessfully, Some(old(db.users)[i]))
          && db.Snapshot() == old(db.Snapshot()).(users := old(db.users)[..i] + old(db.users)[i + 1..])
    {
      if userrole != AdminRole {
        return Failure(RestrictedByAdmin);
      }
      var found := FirstIndex(db.users, UserKeyed(id));
      if found.None? {
        return Failure(UserNotFound);
      }
      r := ApiResponse(true, UserDeleteSuccessfully, Some(db.users[found.value]));
      db.RemoveUserAt(found.value);
    }
  }

  /** After a hard delete no row has the key any more, so GetByIdAsync
      reports UserNotFound. */
  lemma DeleteThenGetByIdFails(t: Tables, id: Guid, i: nat)
    requires UniqueUserIds(t.users) && i < |t.users| && t.users[i].id == id
    ensures GetById(t.(users := t.users[..i] + t.users[i + 1..]), id) == Failure(UserNotFound)
  {
    var s := t.users[..i] + t.users[i + 1..];
    forall k | 0 <= k < |s| ensures s[k].id != id {
      if k < i {
        assert s[k] == t.users[k];
      } else {
        assert s[k] == t.users[k + 1];
      }
    }
  }
}
