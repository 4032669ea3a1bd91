/** The `User` entity: an account's email, stored role list, password hash and
    balance, and the collection of its transactions. The collection is the
    inverse side of the transaction's `customer` reference, so adding or
    removing a transaction also updates that reference. Fields the database
    leaves unset until they are assigned (`?string`, `?float`) are `Option`s;
    the balance is in integer cents.
 */
module UserEntity {
  import opened SeqUtil

  /** The role every user has, whatever is stored. */
  const RoleUser: string := "ROLE_USER"

  /** The registration request: the username (an email address) and the
      password. */
  datatype UserDto = UserDto(username: string, password: string)

  /** The owning side of the user–transaction association: a transaction knows
      its customer, or has none. Its other columns play no part here. */
  class TransactionEntity {
    var customer: User?

    constructor ()
      ensures customer == null
    {
      customer := null;
    }
  }

  /** Where `x` first occurs in `s` (the key `array_search` finds). */
  function FirstIndex<T(==)>(s: seq<T>, x: T): (i: nat)
    requires x in s
    ensures i < |s| && s[i] == x && x !in s[..i]
  {
    if s[0] == x then 0
    else
      assert x in s[1..];
      var i := FirstIndex(s[1..], x);
      assert s[..i + 1] == [s[0]] + s[1..][..i];
      i + 1
  }

  /** `s` without the first occurrence of `x`, the rest in order (what
      `ArrayCollection::removeElement` leaves); `s` itself when `x` is absent. */
  function RemoveFirst<T(==)>(s: seq<T>, x: T): (r: seq<T>)
    ensures x !in s ==> r == s
    ensures x in s ==> |r| == |s| - 1 && multiset(r) == multiset(s) - multiset{x}
  {
    if x in s then
      var i := FirstIndex(s, x);
      assert s == s[..i] + [x] + s[i + 1..];
      s[..i] + s[i + 1..]
    else s
  }

  /** From a collection without duplicates, removing `x` leaves exactly the
      other elements, still without duplicates. */
  lemma RemoveFirstOfDistinct<T>(s: seq<T>, x: T)
    requires NoDup(s)
    ensures NoDup(RemoveFirst(s, x))
    ensures forall y :: y in RemoveFirst(s, x) <==> y in s && y != x
  {
    if x in s {
      var i := FirstIndex(s, x);
      var r := RemoveFirst(s, x);
      assert forall k :: 0 <= k < |r| ==> r[k] == if k < i then s[k] else s[k + 1];
      forall y | y in s && y != x ensures y in r {
        var k :| 0 <= k < |s| && s[k] == y;
        assert k != i;
        if k < i { assert r[k] == y; } else { assert r[k - 1] == y; }
      }
    }
  }

  /** The stored roles with `ROLE_USER` appended, de-duplicated: the stored
      roles' first occurrences in order, then `ROLE_USER` unless it was stored;
      a non-empty list keeps its first role first. */
  lemma RolesWithUser(roles: seq<string>)
    ensures Dedup(roles + [RoleUser]) == if RoleUser in roles then Dedup(roles) else Dedup(roles) + [RoleUser]
    ensures roles != [] ==> Dedup(roles + [RoleUser])[0] == roles[0]
  {
    DedupSnoc(roles, RoleUser);
    if roles != [] {
      DedupHead(roles);
    }
  }

  class User {
    var email: Option<string>
    var roles: seq<string>
    var password: Option<string>
    var balance: Option<int>
    var transactions: seq<TransactionEntity>

    /** `new User()`: no transactions, no roles, every other column unset. */
    constructor ()
      ensures email.None? && roles == [] && password.None? && balance.None? && transactions == []
    {
      email, roles, password, balance, transactions := None, [], None, None, [];
    }

    /** Each transaction is in the collection once and names this user as its
        customer: the two sides of the association agree. */
    ghost predicate Valid()
      reads this, transactions
    {
      NoDup(transactions) && forall t :: t in transactions ==> t.customer == this
    }

    /** The stored roles with `ROLE_USER` appended and duplicates dropped,
        first occurrences kept in place. */
    function GetRoles(): (r: seq<string>)
      reads this
      ensures RoleUser in r
      ensures forall role :: role in roles ==> role in r
      ensures forall role :: role in r ==> role in roles || role == RoleUser
      ensures NoDup(r)
      ensures r == if RoleUser in roles then Dedup(roles) else Dedup(roles) + [RoleUser]
      ensures roles != [] ==> r[0] == roles[0]
    {
      RolesWithUser(roles);
      Dedup(roles + [RoleUser])
    }

    method SetRoles(newRoles: seq<string>)
      modifies this`roles
      ensures roles == newRoles
    {
      roles := newRoles;
    }

    method SetEmail(newEmail: string)
      modifies this`email
      ensures email == Some(newEmail)
    {
      email := Some(newEmail);
    }

    method SetPassword(newPassword: string)
      modifies this`password
      ensures password == Some(newPassword)
    {
      password := Some(newPassword);
    }

    method SetBalance(newBalance: int)
      modifies this`balance
      ensures balance == Some(newBalance)
    {
      balance := Some(newBalance);
    }

    /** A new user from a registration request: the username becomes the
        email, the password is taken as given, the balance is zero and no
        role is stored. */
    static method GetFromDto(dto: UserDto) returns (u: User)
      ensures fresh(u)
      ensures u.email == Some(dto.username) && u.password == Some(dto.password) && u.balance == Some(0)
      ensures u.roles == [] && u.transactions == [] && u.Valid()
      ensures u.GetRoles() == [RoleUser]
    {
      u := new User();
      u.SetEmail(dto.username);
      u.SetPassword(dto.password);
      u.SetBalance(0);
    }

    /** Adding a transaction that is already there changes nothing; otherwise
        it is appended and this user becomes its customer. */
    method AddCourse(t: TransactionEntity)
      modifies this`transactions, t`customer
      ensures old(t in transactions) ==> transactions == old(transactions) && t.customer == old(t.customer)
      ensures old(t !in transactions) ==> transactions == old(transactions) + [t] && t.customer == this
      ensures old(Valid()) ==> Valid()
      ensures t in transactions
    {
      if t !in transactions {
        transactions := transactions + [t];
        t.customer := this;
      }
    }

    /** Removing a transaction that is not there changes nothing; otherwise
        its first occurrence goes, and its customer is cleared only when it
        is still this user. */
    method RemoveCourse(t: TransactionEntity)
      modifies this`transactions, t`customer
      ensures old(t !in transactions) ==> transactions == old(transactions) && t.customer == old(t.customer)
      ensures old(t in transactions) ==>
                transactions == RemoveFirst(old(transactions), t)
                && t.customer == (if old(t.customer) == this then null else old(t.customer))
      ensures old(Valid()) ==> Valid() && t !in transactions
      ensures old(Valid() && t in transactions) ==> t.customer == null
    {
      if t in transactions {
        if NoDup(transactions) {
          RemoveFirstOfDistinct(transactions, t);
        }
        transactions := RemoveFirst(transactions, t);
        if t.customer == this {
          t.customer := null;
        }
      }
    }
  }

  /** A stored list that already holds `ROLE_USER` once and nothing twice comes
      back unchanged, so storing what `GetRoles` returns and reading it again
      gives the same list. */
  lemma GetRolesOfNormalised(u: User)
    requires RoleUser in u.roles && NoDup(u.roles)
    ensures u.GetRoles() == u.roles
  {
    DedupOfDistinct(u.roles);
  }

  /** An administrator stored with `ROLE_SUPER_ADMIN` alone has that role
      first and `ROLE_USER` second. */
  lemma SuperAdminRoleFirst(u: User)
    requires u.roles == ["ROLE_SUPER_ADMIN"]
    ensures u.GetRoles() == ["ROLE_SUPER_ADMIN", RoleUser]
  {
    assert Dedup(u.roles) == u.roles by {
      DedupOfDistinct(u.roles);
    }
  }
}
