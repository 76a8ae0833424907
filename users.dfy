/**
 * The `users` table and the school enrolments (`user_schools`) each account
 * carries. Accounts are addressed by their login id, which is unique, and
 * e-mail addresses are unique as well.
 */
module Users {
  import opened Common

  type UserId = string

  datatype Role = USER | ADMIN

  datatype AccountStatus = ACTIVE | SUSPENDED

  /** One school a user attended; `grade` and `classNumber` are optional. */
  datatype UserSchool = UserSchool(
    schoolCode: Option<string>,
    schoolType: string,
    schoolName: string,
    graduationYear: string,
    grade: Option<string>,
    classNumber: Option<string>)

  datatype User = User(
    userId: UserId,
    password: string,          // as stored: the encoder's output
    name: string,
    email: string,
    profileImageUrl: Option<string>,
    bio: Option<string>,
    schools: seq<UserSchool>,
    role: Role,
    status: AccountStatus,
    lastLoginTime: Option<Time>,
    lastActivityTime: Option<Time>,
    lastLogoutTime: Option<Time>)

  /**
   * The `user_schools` column lengths: school code 20, school type 20,
   * school name 100, graduation year 4, grade 2, class number 10.
   */
  predicate SchoolFits(s: UserSchool) {
    && (s.schoolCode.None? || |s.schoolCode.value| <= 20)
    && |s.schoolType| <= 20
    && |s.schoolName| <= 100
    && |s.graduationYear| <= 4
    && (s.grade.None? || |s.grade.value| <= 2)
    && (s.classNumber.None? || |s.classNumber.value| <= 10)
  }

  /**
   * The `users` column lengths: login id 50, password 255 (the column's
   * default), name 100, e-mail 100, image URL 500, bio 1000; a row that
   * does not fit, or an enrolment row that does not, is rejected on save.
   */
  predicate FitsColumns(u: User) {
    && |u.userId| <= 50
    && |u.password| <= 255
    && |u.name| <= 100
    && |u.email| <= 100
    && (u.profileImageUrl.None? || |u.profileImageUrl.value| <= 500)
    && (u.bio.None? || |u.bio.value| <= 1000)
    && forall i | 0 <= i < |u.schools| :: SchoolFits(u.schools[i])
  }

  /** The user repository: one row per login id. */
  class UserStore {
    var users: map<UserId, User>

    ghost predicate Valid()
      reads this
    {
      UniqueAccounts(users)
    }

    constructor()
      ensures Valid() && users == map[]
    {
      users := map[];
    }
  }

  /** Rows are keyed by their own login id, and no two accounts share an e-mail address. */
  ghost predicate UniqueAccounts(users: map<UserId, User>) {
    (forall id | id in users :: users[id].userId == id)
    && (forall a, b | a in users && b in users && users[a].email == users[b].email :: a == b)
  }

  /** `findByEmail`: the accounts registered with `email`. */
  function WithEmail(users: map<UserId, User>, email: string): (r: set<UserId>)
    ensures forall id :: id in r <==> id in users && users[id].email == email
  {
    set id | id in users && users[id].email == email
  }

  /** Under the uniqueness constraint, `findByEmail` finds at most one account. */
  lemma WithEmailAtMostOne(users: map<UserId, User>, email: string)
    requires UniqueAccounts(users)
    ensures forall a, b | a in WithEmail(users, email) && b in WithEmail(users, email) :: a == b
  {
  }
}

/**
 * Sign-up, login and account recovery. Password hashing is outside the
 * model: a call receives the encoder's output, and `matches` stands for the
 * encoder's check of a raw password against a stored hash.
 */
module Auth {
  import opened Common
  import opened Users

  /**
   * The user id shown by "find my id": ids of at most three characters keep
   * their first character followed by two stars; longer ids keep
   * min(2, length / 3) characters at each end and star out the rest.
   */
  function MaskUserId(id: string): (r: string)
    requires id != []
    ensures |id| <= 3 ==> r == [id[0]] + "**"
    ensures |id| > 3 ==> |r| == |id|
    ensures |id| > 3 ==> var k := ShownChars(|id|);
      1 <= k <= 2 && r[..k] == id[..k] && r[|id| - k..] == id[|id| - k..]
      && (forall i | k <= i < |id| - k :: r[i] == '*')
      && k < |id| - k
  {
    if |id| <= 3 then [id[0]] + "**"
    else
      var k := ShownChars(|id|);
      id[..k] + Stars(|id| - 2 * k) + id[|id| - k..]
  }

  /** `Math.min(2, n / 3)`, the number of characters kept at each end. */
  function ShownChars(n: nat): (k: nat)
    ensures k <= 2 && k <= n / 3
    ensures n >= 6 ==> k == 2
  {
    if n / 3 < 2 then n / 3 else 2
  }

  function Stars(n: nat): (r: string)
    ensures |r| == n && forall i | 0 <= i < n :: r[i] == '*'
  {
    seq(n, _ => '*')
  }

  /**
   * The account `signup` builds: no image or bio yet, the given enrolments,
   * ACTIVE, and the ADMIN role exactly for the login id "admin".
   */
  function NewAccount(userId: UserId, encodedPassword: string, name: string, email: string,
                      schools: seq<UserSchool>): (u: User)
    ensures u.userId == userId && u.password == encodedPassword && u.name == name && u.email == email
    ensures u.profileImageUrl.None? && u.bio.None? && u.schools == schools
    ensures u.role == ADMIN <==> userId == "admin"
    ensures u.status == ACTIVE
    ensures u.lastLoginTime.None? && u.lastActivityTime.None? && u.lastLogoutTime.None?
  {
    User(userId, encodedPassword, name, email, None, None, schools,
         if userId == "admin" then ADMIN else USER, ACTIVE, None, None, None)
  }

  class AuthService {
    const store: UserStore

    constructor(store: UserStore)
      ensures this.store == store
    {
      this.store := store;
    }

    /**
     * `signup`: rejects a taken login id, then a taken e-mail, and otherwise
     * stores `NewAccount`; a row that does not fit its columns is rejected.
     */
    method Signup(userId: UserId, encodedPassword: string, name: string, email: string,
                  schools: seq<UserSchool>) returns (r: Outcome<User>)
      requires store.Valid()
      modifies store
      ensures store.Valid()
      ensures userId in old(store.users) ==> r == Fail(DuplicateUserId)
      ensures userId !in old(store.users) && WithEmail(old(store.users), email) != {} ==> r == Fail(DuplicateEmail)
      ensures userId !in old(store.users) && WithEmail(old(store.users), email) == {} ==>
        && (r.Ok? <==> FitsColumns(NewAccount(userId, encodedPassword, name, email, schools)))
        && (r.Fail? ==> r == Fail(ConstraintViolation))
      ensures r.Fail? ==> store.users == old(store.users)
      ensures r.Ok? ==>
        && userId !in old(store.users) && WithEmail(old(store.users), email) == {}
        && store.users == old(store.users)[userId := r.value]
        && r.value == NewAccount(userId, encodedPassword, name, email, schools)
    {
      if userId in store.users {
        return Fail(DuplicateUserId);
      }
      if WithEmail(store.users, email) != {} {
        return Fail(DuplicateEmail);
      }
      var user := User(userId, encodedPassword, name, email, None, None, schools,
                       if userId == "admin" then ADMIN else USER, ACTIVE, None, None, None);
      if !FitsColumns(user) {
        return Fail(ConstraintViolation);
      }
      store.users := store.users[userId := user];
      r := Ok(user);
    }

    /**
     * `login`: an unknown id and a wrong password fail with the same error;
     * a successful login stamps the login and activity times.
     */
    method Login(userId: UserId, password: string, matches: (string, string) -> bool, now: Time)
      returns (r: Outcome<User>)
      requires store.Valid()
      modifies store
      ensures store.Valid()
      ensures r.Fail? <==> userId !in old(store.users) || !matches(password, old(store.users)[userId].password)
      ensures r.Fail? ==> r.error == BadCredentials && store.users == old(store.users)
      ensures r.Ok? ==>
        && r.value == old(store.users)[userId].(lastLoginTime := Some(now), lastActivityTime := Some(now))
        && store.users == old(store.users)[userId := r.value]
    {
      if userId !in store.users || !matches(password, store.users[userId].password) {
        return Fail(BadCredentials);
      }
      var user := store.users[userId].(lastLoginTime := Some(now), lastActivityTime := Some(now));
      store.users := store.users[userId := user];
      r := Ok(user);
    }

    /**
     * `findId`: the masked login id of the account with this e-mail address,
     * provided the name matches; both kinds of mismatch fail alike.
     */
    method FindId(email: string, name: string) returns (r: Outcome<string>)
      requires store.Valid()
      ensures r.Ok? <==> exists id | id in store.users :: store.users[id].email == email && store.users[id].name == name && id != []
      ensures r.Ok? ==> exists id | id in store.users :: store.users[id].email == email && r.value == MaskUserId(id)
      ensures r.Fail? ==> r.error == Mismatch || (r.error == Invalid && exists id | id in store.users :: store.users[id].email == email && id == [])
    {
      var found := WithEmail(store.users, email);
      if found == {} {
        return Fail(Mismatch);
      }
      var id :| id in found;
      WithEmailAtMostOne(store.users, email);
      if store.users[id].name != name {
        return Fail(Mismatch);
      }
      if id == [] {
        // `charAt(0)` on an empty id throws
        return Fail(Invalid);
      }
      r := Ok(MaskUserId(id));
    }

    /** `verifyIdentity`: succeeds exactly when the account exists and its e-mail matches. */
    method VerifyIdentity(userId: UserId, email: string) returns (r: Outcome<()>)
      ensures r.Ok? <==> userId in store.users && store.users[userId].email == email
      ensures r.Fail? ==> r.error == Mismatch
    {
      if userId !in store.users || store.users[userId].email != email {
        return Fail(Mismatch);
      }
      r := Ok(());
    }

    /** `resetPassword`: the same identity check, then the new encoded password is stored. */
    method ResetPassword(userId: UserId, email: string, encodedPassword: string) returns (r: Outcome<()>)
      requires store.Valid()
      modifies store
      ensures store.Valid()
      ensures r.Ok? <==> userId in old(store.users) && old(store.users)[userId].email == email
      ensures r.Fail? ==> r.error == Mismatch && store.users == old(store.users)
      ensures r.Ok? ==> store.users == old(store.users)[userId := old(store.users)[userId].(password := encodedPassword)]
    {
      if userId !in store.users || store.users[userId].email != email {
        return Fail(Mismatch);
      }
      store.users := store.users[userId := store.users[userId].(password := encodedPassword)];
      r := Ok(());
    }

    /** `logout`: stamps the logout time of an existing account. */
    method Logout(userId: UserId, now: Time) returns (r: Outcome<()>)
      requires store.Valid()
      modifies store
      ensures store.Valid()
      ensures r.Ok? <==> userId in old(store.users)
      ensures r.Fail? ==> r.error == UserNotFound && store.users == old(store.users)
      ensures r.Ok? ==> store.users == old(store.users)[userId := old(store.users)[userId].(lastLogoutTime := Some(now))]
    {
      if userId !in store.users {
        return Fail(UserNotFound);
      }
      store.users := store.users[userId := store.users[userId].(lastLogoutTime := Some(now))];
      r := Ok(());
    }

    /** `updateActivity`: stamps the activity time of an existing account. */
    method UpdateActivity(userId: UserId, now: Time) returns (r: Outcome<()>)
      requires store.Valid()
      modifies store
      ensures store.Valid()
      ensures r.Ok? <==> userId in old(store.users)
      ensures r.Fail? ==> r.error == UserNotFound && store.users == old(store.users)
      ensures r.Ok? ==> store.users == old(store.users)[userId := old(store.users)[userId].(lastActivityTime := Some(now))]
    {
      if userId !in store.users {
        return Fail(UserNotFound);
      }
      store.users := store.users[userId := store.users[userId].(lastActivityTime := Some(now))];
      r := Ok(());
    }
  }
}
