/** Shared vocabulary of the repositories: identifiers, optional values,
    the (success, message, payload) response envelope and the exceptions a
    repository lets escape. */
module Common {

  /** A Guid is an opaque identifier; only equality and freshness matter.
      `EmptyGuid` plays the role of Guid.Empty. */
  type Guid = nat

  const EmptyGuid: Guid := 0

  datatype Option<+T> = None | Some(value: T)

  /** ApiResponse<T>: a success flag, a human-readable message and an
      optional payload. */
  datatype ApiResponse<+T> = ApiResponse(success: bool, message: string, data: Option<T>)

  function Failure<T>(message: string): ApiResponse<T>
  {
    ApiResponse(false, message, None)
  }

  /** The exceptions that escape a repository call instead of a response:
      an explicit `throw new ArgumentException(...)`, the store's refusal
      of a duplicate primary key when changes are saved, and the
      dereference of a null argument. */
  datatype Exception = ArgumentException(message: string) | DbUpdateException | NullReferenceException

  /** What a call that may throw produces: either it returns normally, or
      an exception escapes it. */
  datatype Outcome<+T> = Returned(value: T) | Threw(exception: Exception)

  /** FirstOrDefault over a sequence: the index of the first element that
      satisfies `p`, or None when there is none. */
  function FirstIndex<T>(s: seq<T>, p: T -> bool): (i: Option<nat>)
    ensures i.None? <==> forall k :: 0 <= k < |s| ==> !p(s[k])
    ensures i.Some? ==> i.value < |s| && p(s[i.value])
    ensures i.Some? ==> forall k :: 0 <= k < i.value ==> !p(s[k])
  {
    if s == [] then None
    else if p(s[0]) then Some(0)
    else
      match FirstIndex(s[1..], p)
      case None => None
      case Some(j) => Some(j + 1)
  }

  /** The first index satisfying `p` is the one before which nothing does. */
  lemma FirstIndexAt<T>(s: seq<T>, p: T -> bool, i: nat)
    requires i < |s| && p(s[i])
    requires forall k :: 0 <= k < i ==> !p(s[k])
    ensures FirstIndex(s, p) == Some(i)
  {
  }

  /** Extending a prefix with no match by an element that does not match
      leaves no match. */
  lemma FirstIndexPrefixNone<T>(s: seq<T>, p: T -> bool, i: nat)
    requires i < |s| && FirstIndex(s[..i], p).None? && !p(s[i])
    ensures FirstIndex(s[..i + 1], p).None?
  {
    var longer := s[..i + 1];
    forall k | 0 <= k < |longer| ensures !p(longer[k]) {
      if k < i {
        assert longer[k] == s[..i][k];
      }
    }
  }

  /** The first match follows a prefix with no match. */
  lemma FirstIndexPrefixHit<T>(s: seq<T>, p: T -> bool, i: nat)
    requires i < |s| && FirstIndex(s[..i], p).None? && p(s[i])
    ensures FirstIndex(s, p) == Some(i)
  {
    forall k | 0 <= k < i ensures !p(s[k]) {
      assert s[k] == s[..i][k];
    }
    FirstIndexAt(s, p, i);
  }

  /** Where(p) over a sequence: the elements satisfying `p`, in order. */
  function Filter<T(!new)>(s: seq<T>, p: T -> bool): (r: seq<T>)
    ensures forall x :: x in r <==> x in s && p(x)
  {
    if s == [] then []
    else
      assert s == [s[0]] + s[1..];
      (if p(s[0]) then [s[0]] else []) + Filter(s[1..], p)
  }

  lemma {:induction false} FilterSubMultiset<T(!new)>(s: seq<T>, p: T -> bool)
    ensures multiset(Filter(s, p)) <= multiset(s)
  {
    if s != [] {
      FilterSubMultiset(s[1..], p);
      assert s == [s[0]] + s[1..];
    }
  }

  lemma {:induction false} FilterNone<T(!new)>(s: seq<T>, p: T -> bool)
    requires forall k :: 0 <= k < |s| ==> !p(s[k])
    ensures Filter(s, p) == []
  {
    if s != [] {
      FilterNone(s[1..], p);
    }
  }

  lemma {:induction false} FilterAppend<T(!new)>(a: seq<T>, b: seq<T>, p: T -> bool)
    ensures Filter(a + b, p) == Filter(a, p) + Filter(b, p)
  {
    if a == [] {
      assert a + b == b;
    } else {
      var ab := a + b;
      var head := if p(a[0]) then [a[0]] else [];
      assert ab[0] == a[0] && ab[1..] == a[1..] + b;
      FilterAppend(a[1..], b, p);
      calc {
        Filter(ab, p);
        head + Filter(a[1..] + b, p);
        head + (Filter(a[1..], p) + Filter(b, p));
        (head + Filter(a[1..], p)) + Filter(b, p);
        Filter(a, p) + Filter(b, p);
      }
    }
  }

  // Message constants (ApiMessageExtensions)
  const UserAlreadyExist := "User Already Exist"
  const UserNotFound := "User not Found"
  const RoleNotFound := "Role Not Found"
  const UserRoleNotAssigned := "User role not assigned"
  const UserAddedSuccessfully := "User Added Successfully"
  const UserUpdatedSuccessfully := "User Updated Successfully"
  const UserRetriveSuccessfully := "User Retrieve Successfully"
  const UserDeleteSuccessfully := "User Delete Successfully"
  const UserRegisterSuccessfully := "User registered successfully with default role 'Manager'."
  const UserLoginSuccessfully := "User Login Successfully"
  const InvalidCredentials := "Invalid Crendentials"
  const DefaultRoleNotFound := "Manage Role not Found"
  const RestrictedByAdmin := "Access Denied. Resctricted by Admin"
  const UserWithPhoneNumberAlreadyExist := "User With Phone Number Already Exists!"
}
