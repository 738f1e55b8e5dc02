/** The user service: account creation and editing with uniqueness guards,
    the user-role and user-job link tables, deletion, the self-service
    profile, password, email and avatar changes, and login lookup. Password
    hashing and checking, RSA decryption and the e-mail address test are
    functions fixed at construction; the current user, the clock and the
    generated ids are parameters; cache removals are recorded in a log. */
module UserService {
  import opened Common
  import opened Clock

  // ---------------------------------------------------------------------
  // Rows
  // ---------------------------------------------------------------------

  datatype User = User(
    id: int,
    username: string,
    nickName: string,
    email: string,
    phone: string,
    gender: string,
    enabled: bool,
    deptId: int,
    password: string,
    avatarPath: Option<string>,
    isAdmin: bool,
    passwordReSetTime: Option<DateTime>)

  /** The create/update input, with the ids of its roles and jobs. */
  datatype UserInput = UserInput(
    id: int,
    username: string,
    nickName: string,
    email: string,
    phone: string,
    gender: string,
    enabled: bool,
    deptId: int,
    roles: seq<int>,
    jobs: seq<int>)

  /** The profile fields a user edits about themself. */
  datatype CenterInput = CenterInput(nickName: string, gender: string, phone: string)

  /** A `UserRole` or `UserJob` row. */
  datatype Link = Link(userId: int, targetId: int)

  datatype Reason =
    | UsernameExists | EmailExists | PhoneExists | NotExist
    | NoRoleLevel          // `Min()` over a user with no roles raises
    | ForbidToDeleteYourself
    | PasswordSameAsOld | InputsDoNotMatch | IncorrectOldPassword
    | InvalidPassword | InvalidVerificationCode
    | OperationFailed

  /** The cache entries the service removes, keyed by user or by session. */
  datatype CacheKind = UserInfoById | UserPermissionUrls | UserPermissionRoles | UserMenuById | UserDataScopeById
  datatype CacheKey = UserKey(kind: CacheKind, userId: int) | OnlineKey(token: string)

  /** The three columns that must be unique over live users. */
  datatype Field = Username | Email | Phone

  function FieldOf(u: User, f: Field): string
  {
    match f
    case Username => u.username
    case Email => u.email
    case Phone => u.phone
  }

  function InputField(dto: UserInput, f: Field): string
  {
    match f
    case Username => dto.username
    case Email => dto.email
    case Phone => dto.phone
  }

  ghost predicate Taken(users: map<int, User>, f: Field, v: string)
  {
    exists k :: k in users && FieldOf(users[k], f) == v
  }

  ghost predicate Unique(users: map<int, User>, f: Field)
  {
    forall a, b :: a in users && b in users && a != b ==> FieldOf(users[a], f) != FieldOf(users[b], f)
  }

  ghost predicate AllUnique(users: map<int, User>)
  {
    Unique(users, Username) && Unique(users, Email) && Unique(users, Phone)
  }

  ghost predicate WellKeyed(users: map<int, User>)
  {
    forall k :: k in users ==> users[k].id == k
  }

  /** The row `CreateAsync` inserts: the input's columns, the given
      password hash, no avatar, not an administrator, never reset. */
  function NewUser(dto: UserInput, id: int, passwordHash: string): (u: User)
    ensures u.id == id && u.password == passwordHash
    ensures forall f :: FieldOf(u, f) == InputField(dto, f)
    ensures u.avatarPath.None? && !u.isAdmin && u.passwordReSetTime.None?
  {
    User(id, dto.username, dto.nickName, dto.email, dto.phone, dto.gender, dto.enabled, dto.deptId,
         passwordHash, None, false, None)
  }

  /** The row `UpdateAsync` writes: the input's columns, except that the
      ignored columns keep the stored values. */
  function Merged(stored: User, dto: UserInput): (u: User)
    ensures u.id == dto.id
    ensures forall f :: FieldOf(u, f) == InputField(dto, f)
    ensures u.nickName == dto.nickName && u.gender == dto.gender && u.enabled == dto.enabled && u.deptId == dto.deptId
    ensures u.password == stored.password && u.avatarPath == stored.avatarPath
    ensures u.isAdmin == stored.isAdmin && u.passwordReSetTime == stored.passwordReSetTime
  {
    User(dto.id, dto.username, dto.nickName, dto.email, dto.phone, dto.gender, dto.enabled, dto.deptId,
         stored.password, stored.avatarPath, stored.isAdmin, stored.passwordReSetTime)
  }

  // ---------------------------------------------------------------------
  // Guards
  // ---------------------------------------------------------------------

  /** The uniqueness checks of `CreateAsync`, username first, then email,
      then phone. */
  ghost function CreateCheck(users: map<int, User>, dto: UserInput): (r: Option<Reason>)
    ensures r == Some(UsernameExists) <==> Taken(users, Username, dto.username)
    ensures r == Some(EmailExists) <==> !Taken(users, Username, dto.username) && Taken(users, Email, dto.email)
    ensures r == Some(PhoneExists) <==>
      !Taken(users, Username, dto.username) && !Taken(users, Email, dto.email) && Taken(users, Phone, dto.phone)
    ensures r.None? <==>
      !Taken(users, Username, dto.username) && !Taken(users, Email, dto.email) && !Taken(users, Phone, dto.phone)
  {
    if Taken(users, Username, dto.username) then Some(UsernameExists)
    else if Taken(users, Email, dto.email) then Some(EmailExists)
    else if Taken(users, Phone, dto.phone) then Some(PhoneExists)
    else None
  }

  /** A field the update changes clashes with some row. */
  ghost predicate Clash(users: map<int, User>, dto: UserInput, f: Field)
    requires dto.id in users
  {
    FieldOf(users[dto.id], f) != InputField(dto, f) && Taken(users, f, InputField(dto, f))
  }

  /** The guards of `UpdateAsync` before the write: an unknown id, then a
      changed username, email or phone already in use, then a user without
      roles, whose minimum role level does not exist. */
  ghost function UpdateCheck(users: map<int, User>, userRoles: seq<Link>, dto: UserInput): (r: Option<Reason>)
    ensures r == Some(NotExist) <==> dto.id !in users
    ensures dto.id in users ==>
      && (r == Some(UsernameExists) <==> Clash(users, dto, Username))
      && (r == Some(EmailExists) <==> !Clash(users, dto, Username) && Clash(users, dto, Email))
      && (r == Some(PhoneExists) <==>
            !Clash(users, dto, Username) && !Clash(users, dto, Email) && Clash(users, dto, Phone))
      && (r == Some(NoRoleLevel) <==> (forall f :: !Clash(users, dto, f)) && Targets(userRoles, dto.id) == [])
      && (r.None? <==> (forall f :: !Clash(users, dto, f)) && Targets(userRoles, dto.id) != [])
  {
    if dto.id !in users then Some(NotExist)
    else if Clash(users, dto, Username) then Some(UsernameExists)
    else if Clash(users, dto, Email) then Some(EmailExists)
    else if Clash(users, dto, Phone) then Some(PhoneExists)
    else if Targets(userRoles, dto.id) == [] then Some(NoRoleLevel)
    else None
  }

  /** A unique column stays unique when one row gets a value that either
      is its own already or is used by no row. */
  lemma {:induction false} SetKeepsUnique(users: map<int, User>, id: int, u: User, f: Field)
    requires Unique(users, f) && id in users
    requires FieldOf(u, f) == FieldOf(users[id], f) || !Taken(users, f, FieldOf(u, f))
    ensures Unique(users[id := u], f)
  {
    var after := users[id := u];
    forall a, b | a in after && b in after && a != b ensures FieldOf(after[a], f) != FieldOf(after[b], f) {
      if a == id && FieldOf(u, f) != FieldOf(users[id], f) {
        assert users[b] == after[b];
      } else if b == id && FieldOf(u, f) != FieldOf(users[id], f) {
        assert users[a] == after[a];
      }
    }
  }

  /** A new row whose unique columns no row uses keeps them unique. */
  lemma {:induction false} InsertKeepsUnique(users: map<int, User>, id: int, u: User, f: Field)
    requires Unique(users, f) && id !in users && !Taken(users, f, FieldOf(u, f))
    ensures Unique(users[id := u], f)
  {
    var after := users[id := u];
    forall a, b | a in after && b in after && a != b ensures FieldOf(after[a], f) != FieldOf(after[b], f) {
      if a == id {
        assert users[b] == after[b];
      } else if b == id {
        assert users[a] == after[a];
      }
    }
  }

  /** A passed create check, then the insert, keeps all three columns
      unique. */
  lemma CreateKeepsUnique(users: map<int, User>, dto: UserInput, id: int, passwordHash: string)
    requires AllUnique(users) && id !in users && CreateCheck(users, dto).None?
    ensures AllUnique(users[id := NewUser(dto, id, passwordHash)])
  {
    var u := NewUser(dto, id, passwordHash);
    InsertKeepsUnique(users, id, u, Username);
    InsertKeepsUnique(users, id, u, Email);
    InsertKeepsUnique(users, id, u, Phone);
  }

  /** A passed update check, then the write, keeps all three columns
      unique. */
  lemma UpdateKeepsUnique(users: map<int, User>, userRoles: seq<Link>, dto: UserInput)
    requires AllUnique(users) && UpdateCheck(users, userRoles, dto).None?
    ensures AllUnique(users[dto.id := Merged(users[dto.id], dto)])
  {
    var u := Merged(users[dto.id], dto);
    assert !Clash(users, dto, Username) && !Clash(users, dto, Email) && !Clash(users, dto, Phone);
    SetKeepsUnique(users, dto.id, u, Username);
    SetKeepsUnique(users, dto.id, u, Email);
    SetKeepsUnique(users, dto.id, u, Phone);
  }

  // ---------------------------------------------------------------------
  // Link tables
  // ---------------------------------------------------------------------

  /** The targets linked to `uid`, in table order. */
  function Targets(links: seq<Link>, uid: int): (r: seq<int>)
    ensures |r| <= |links|
    ensures forall t :: t in r <==> Link(uid, t) in links
  {
    if links == [] then []
    else if links[0].userId == uid then [links[0].targetId] + Targets(links[1..], uid)
    else Targets(links[1..], uid)
  }

  /** `Deleteable<…>().Where(x => x.UserId == uid)`: the rows of other users. */
  function Without(links: seq<Link>, uid: int): (r: seq<Link>)
    ensures forall l :: l in r <==> l in links && l.userId != uid
  {
    if links == [] then []
    else
      assert forall l :: l in links <==> l == links[0] || l in links[1..];
      if links[0].userId == uid then Without(links[1..], uid)
      else [links[0]] + Without(links[1..], uid)
  }

  /** The rows `Insertable` adds: one per target, in order. */
  function LinksFor(uid: int, targets: seq<int>): (r: seq<Link>)
    ensures |r| == |targets|
    ensures forall i :: 0 <= i < |r| ==> r[i].userId == uid && r[i].targetId == targets[i]
  {
    if targets == [] then [] else [Link(uid, targets[0])] + LinksFor(uid, targets[1..])
  }

  /** Delete the user's rows, then insert one per target. */
  function Relink(links: seq<Link>, uid: int, targets: seq<int>): (r: seq<Link>)
    ensures forall l :: l in r <==> (l in links && l.userId != uid) || (l.userId == uid && l.targetId in targets)
  {
    var rows := LinksFor(uid, targets);
    assert forall l: Link :: l in rows <==> l.userId == uid && l.targetId in targets by {
      forall l: Link | l.userId == uid && l.targetId in targets ensures l in rows {
        var i :| 0 <= i < |targets| && targets[i] == l.targetId;
        assert rows[i] == l;
      }
    }
    Without(links, uid) + LinksFor(uid, targets)
  }

  lemma {:induction false} TargetsAppend(a: seq<Link>, b: seq<Link>, uid: int)
    ensures Targets(a + b, uid) == Targets(a, uid) + Targets(b, uid)
  {
    if a != [] {
      assert (a + b)[0] == a[0];
      assert (a + b)[1..] == a[1..] + b;
      TargetsAppend(a[1..], b, uid);
    } else {
      assert a + b == b;
    }
  }

  lemma {:induction false} TargetsWithout(links: seq<Link>, uid: int, u: int)
    ensures Targets(Without(links, uid), u) == if u == uid then [] else Targets(links, u)
  {
    if links != [] {
      TargetsWithout(links[1..], uid, u);
    }
  }

  lemma {:induction false} TargetsLinksFor(uid: int, targets: seq<int>, u: int)
    ensures Targets(LinksFor(uid, targets), u) == if u == uid then targets else []
  {
    if targets != [] {
      var r := LinksFor(uid, targets);
      assert r[1..] == LinksFor(uid, targets[1..]);
      TargetsLinksFor(uid, targets[1..], u);
    }
  }

  /** After relinking, the user is linked to exactly the given targets,
      one row each in the given order, and every other user keeps its
      links. */
  lemma RelinkExact(links: seq<Link>, uid: int, targets: seq<int>, u: int)
    ensures Targets(Relink(links, uid, targets), uid) == targets
    ensures u != uid ==> Targets(Relink(links, uid, targets), u) == Targets(links, u)
  {
    TargetsAppend(Without(links, uid), LinksFor(uid, targets), uid);
    TargetsWithout(links, uid, uid);
    TargetsLinksFor(uid, targets, uid);
    TargetsAppend(Without(links, uid), LinksFor(uid, targets), u);
    TargetsWithout(links, uid, u);
    TargetsLinksFor(uid, targets, u);
  }

  // ---------------------------------------------------------------------
  // Avatar file name and path
  // ---------------------------------------------------------------------

  /** `s.LastIndexOf(c)`: the last position holding `c`, or -1. */
  function LastIndexOf(s: string, c: char): (r: int)
    ensures -1 <= r < |s|
    ensures r >= 0 ==> s[r] == c && forall j :: r < j < |s| ==> s[j] != c
    ensures r == -1 <==> c !in s
  {
    if s == [] then -1
    else if s[|s| - 1] == c then |s| - 1
    else
      var r := LastIndexOf(s[..|s| - 1], c);
      assert c in s <==> c in s[..|s| - 1] by {
        assert s == s[..|s| - 1] + [s[|s| - 1]];
      }
      r
  }

  /** `name.Substring(Math.Max(name.LastIndexOf('.'), 0))`. */
  function Extension(name: string): (r: string)
    ensures '.' !in name ==> r == name
    ensures '.' in name ==> |r| >= 1 && r[0] == '.' && '.' !in r[1..]
    ensures |r| <= |name| && name == name[..|name| - |r|] + r
  {
    var i := LastIndexOf(name, '.');
    var r := name[if i < 0 then 0 else i..];
    assert name == name[..|name| - |r|] + r;
    r
  }

  /** The stored avatar file name: the `yyyyMMddHHmmss` stamp, an
      underscore, the generated id, the original name's extension. */
  function AvatarName(now: DateTime, nextId: nat, fileName: string): (r: string)
    ensures var n := |Decimal(nextId)|;
      && |r| == 15 + n + |Extension(fileName)|
      && r[..14] == TimeStamp(now) && r[14] == '_'
      && r[15..15 + n] == Decimal(nextId)
      && r[15 + n..] == Extension(fileName)
  {
    var stamp, id, ext := TimeStamp(now), Decimal(nextId), Extension(fileName);
    SplitParts(stamp, id, ext);
    stamp + "_" + id + ext
  }

  lemma SplitParts(stamp: string, id: string, ext: string)
    requires |stamp| == 14
    ensures var r := stamp + "_" + id + ext;
      && |r| == 15 + |id| + |ext|
      && r[..14] == stamp && r[14] == '_'
      && r[15..15 + |id|] == id
      && r[15 + |id|..] == ext
  {
  }

  /** `Path.Combine(a, b)` of two relative parts, with the platform's
      directory separator. */
  function Combine(a: string, b: string, sep: char): (r: string)
    ensures |r| == |a| + 1 + |b| && r[..|a|] == a && r[|a|] == sep && r[|a| + 1..] == b
  {
    a + [sep] + b
  }

  /** `s.Replace("\\", "/")`. */
  function Slashes(s: string): (r: string)
    ensures |r| == |s| && '\\' !in r
  {
    if s == [] then "" else [if s[0] == '\\' then '/' else s[0]] + Slashes(s[1..])
  }

  /** Each backslash becomes a slash and every other character stays. */
  lemma {:induction false} SlashesAt(s: string, i: int)
    requires 0 <= i < |s|
    ensures Slashes(s)[i] == if s[i] == '\\' then '/' else s[i]
  {
    if i > 0 {
      SlashesAt(s[1..], i - 1);
    }
  }

  /** The avatar path stored on the user: the file's location under the web
      root, as a rooted path with forward slashes. `sep` is the platform's
      directory separator. */
  function RelativeAvatarPath(avatarName: string, sep: char): (r: string)
    ensures |r| >= 1 && r[0] == '/' && '\\' !in r
  {
    "/" + Slashes(Combine(Combine(Combine("uploads", "file", sep), "avatar", sep), avatarName, sep))
  }

  lemma {:induction false} SlashesAppend(a: string, b: string)
    ensures Slashes(a + b) == Slashes(a) + Slashes(b)
  {
    if a != [] {
      assert (a + b)[0] == a[0] && (a + b)[1..] == a[1..] + b;
      SlashesAppend(a[1..], b);
    } else {
      assert a + b == b;
    }
  }

  lemma {:induction false} SlashesIdentity(s: string)
    requires '\\' !in s
    ensures Slashes(s) == s
  {
    if s != [] {
      assert s[0] in s;
      assert forall c :: c in s[1..] ==> c in s;
      SlashesIdentity(s[1..]);
    }
  }

  /** A separator on either platform becomes a slash. */
  lemma SlashesCombine(a: string, b: string, sep: char)
    requires sep == '/' || sep == '\\'
    ensures Slashes(Combine(a, b, sep)) == Slashes(a) + "/" + Slashes(b)
  {
    SlashesAppend(a + [sep], b);
    SlashesAppend(a, [sep]);
    assert Slashes([sep]) == "/";
  }

  /** On either platform the stored path reads the same. */
  lemma AvatarPathOnEitherPlatform(avatarName: string, sep: char)
    requires sep == '/' || sep == '\\'
    requires '\\' !in avatarName
    ensures RelativeAvatarPath(avatarName, sep) == "/" + ("uploads" + "/" + "file" + "/" + "avatar" + "/" + avatarName)
  {
    var dir := Combine(Combine("uploads", "file", sep), "avatar", sep);
    SlashesCombine(dir, avatarName, sep);
    SlashesCombine(Combine("uploads", "file", sep), "avatar", sep);
    SlashesCombine("uploads", "file", sep);
    SlashesIdentity("uploads");
    SlashesIdentity("file");
    SlashesIdentity("avatar");
    SlashesIdentity(avatarName);
  }

  // ---------------------------------------------------------------------
  // The service
  // ---------------------------------------------------------------------

  class UserService {
    /** `BCryptHelper.Hash`. */
    const hash: string -> string
    /** `BCryptHelper.Verify(plain, hashed)`. */
    const verify: (string, string) -> bool
    /** `RsaHelper.Decrypt`. */
    const decrypt: string -> string
    /** `IsEmail()` on a login name. */
    const isEmail: string -> bool
    /** The configured `UserDefaultPassword`. */
    const defaultPassword: string

    /** The users not logically deleted, by id. */
    var users: map<int, User>
    var userRoles: seq<Link>
    var userJobs: seq<Link>
    /** The cache entries removed so far, in order. */
    ghost var evictions: seq<CacheKey>

    ghost predicate Valid()
      reads this
    {
      WellKeyed(users)
    }

    constructor(hash: string -> string, verify: (string, string) -> bool, decrypt: string -> string,
                isEmail: string -> bool, defaultPassword: string,
                users: map<int, User>, userRoles: seq<Link>, userJobs: seq<Link>)
      requires WellKeyed(users)
      ensures Valid()
      ensures this.hash == hash && this.verify == verify && this.decrypt == decrypt
      ensures this.isEmail == isEmail && this.defaultPassword == defaultPassword
      ensures this.users == users && this.userRoles == userRoles && this.userJobs == userJobs
      ensures evictions == []
    {
      this.hash := hash;
      this.verify := verify;
      this.decrypt := decrypt;
      this.isEmail := isEmail;
      this.defaultPassword := defaultPassword;
      this.users := users;
      this.userRoles := userRoles;
      this.userJobs := userJobs;
      evictions := [];
    }

    /** `ClearUserCache`: the five per-user entries. */
    method ClearUserCache(id: int)
      modifies this`evictions
      ensures evictions == old(evictions) + UserKeys(id)
    {
      evictions := evictions + UserKeys(id);
    }

    /** `UpdateAsync` of the base repository: the write may fail. */
    method Write(u: User) returns (ok: bool)
      requires Valid() && u.id in users
      modifies this`users
      ensures Valid()
      ensures ok ==> users == old(users)[u.id := u]
      ensures !ok ==> users == old(users)
    {
      ok :| true;
      if ok {
        users := users[u.id := u];
      }
    }

    /** The duplicate queries of `CreateAsync`, in order. */
    method ValidateCreate(dto: UserInput) returns (e: Option<Reason>)
      ensures e == CreateCheck(users, dto)
    {
      if exists k :: k in users && users[k].username == dto.username {
        return Some(UsernameExists);
      }
      if exists k :: k in users && users[k].email == dto.email {
        return Some(EmailExists);
      }
      if exists k :: k in users && users[k].phone == dto.phone {
        return Some(PhoneExists);
      }
      e := None;
    }

    /** The lookup and the duplicate queries of `UpdateAsync`, in order,
        and the role-level query, which needs at least one role. */
    method ValidateUpdate(dto: UserInput) returns (e: Option<Reason>)
      ensures e == UpdateCheck(users, userRoles, dto)
    {
      if dto.id !in users {
        return Some(NotExist);
      }
      var stored := users[dto.id];
      if stored.username != dto.username && exists k :: k in users && users[k].username == dto.username {
        assert Clash(users, dto, Username);
        return Some(UsernameExists);
      }
      if stored.email != dto.email && exists k :: k in users && users[k].email == dto.email {
        assert Clash(users, dto, Email);
        return Some(EmailExists);
      }
      if stored.phone != dto.phone && exists k :: k in users && users[k].phone == dto.phone {
        assert Clash(users, dto, Phone);
        return Some(PhoneExists);
      }
      if Targets(userRoles, dto.id) == [] {
        return Some(NoRoleLevel);
      }
      e := None;
    }

    /** `CreateAsync`. The insert's own outcome is not inspected: the
        links are written under the new id and the call reports success. */
    method Create(dto: UserInput) returns (r: OperateResult<Reason>)
      requires Valid()
      modifies this`users, this`userRoles, this`userJobs
      ensures Valid()
      ensures CreateCheck(old(users), dto).Some? ==>
        r == Error(CreateCheck(old(users), dto).value)
        && users == old(users) && userRoles == old(userRoles) && userJobs == old(userJobs)
      ensures CreateCheck(old(users), dto).None? ==>
        r.Success? &&
          exists k ::
            && k > 0 && k !in old(users)
            && (users == old(users)[k := NewUser(dto, k, hash(defaultPassword))] || users == old(users))
            && userRoles == Relink(old(userRoles), k, dto.roles)
            && userJobs == Relink(old(userJobs), k, dto.jobs)
      ensures AllUnique(old(users)) ==> AllUnique(users)
    {
      var e := ValidateCreate(dto);
      if e.Some? {
        return Error(e.value);
      }
      var id := FreshKey(users);
      var user := NewUser(dto, id, hash(defaultPassword));
      var ok: bool :| true;
      if ok {
        if AllUnique(users) {
          CreateKeepsUnique(users, dto, id, hash(defaultPassword));
        }
        users := users[id := user];
      }
      userRoles := Without(userRoles, id) + LinksFor(id, dto.roles);
      userJobs := Without(userJobs, id) + LinksFor(id, dto.jobs);
      r := Success;
    }

    /** `UpdateAsync`. The write's own outcome is not inspected: the links
        are rewritten, the user's cache cleared and success reported. */
    method Update(dto: UserInput) returns (r: OperateResult<Reason>)
      requires Valid()
      modifies this`users, this`userRoles, this`userJobs, this`evictions
      ensures Valid()
      ensures UpdateCheck(old(users), old(userRoles), dto).Some? ==>
        r == Error(UpdateCheck(old(users), old(userRoles), dto).value)
        && users == old(users) && userRoles == old(userRoles) && userJobs == old(userJobs)
        && evictions == old(evictions)
      ensures UpdateCheck(old(users), old(userRoles), dto).None? ==>
        r.Success?
        && (users == old(users)[dto.id := Merged(old(users)[dto.id], dto)] || users == old(users))
        && userRoles == Relink(old(userRoles), dto.id, dto.roles)
        && userJobs == Relink(old(userJobs), dto.id, dto.jobs)
        && evictions == old(evictions) + UserKeys(dto.id)
      ensures AllUnique(old(users)) ==> AllUnique(users)
    {
      var e := ValidateUpdate(dto);
      if e.Some? {
        return Error(e.value);
      }
      var stored := users[dto.id];
      if AllUnique(users) {
        UpdateKeepsUnique(users, userRoles, dto);
      }
      var _ := Write(Merged(stored, dto));
      userRoles := Without(userRoles, dto.id) + LinksFor(dto.id, dto.roles);
      userJobs := Without(userJobs, dto.id) + LinksFor(dto.id, dto.jobs);
      ClearUserCache(dto.id);
      r := Success;
    }

    /** `DeleteAsync`. Never deletes the caller's own account; otherwise
        clears the cache of each matched user, then deletes every match. */
    method Delete(ids: set<int>, currentUserId: int) returns (r: OperateResult<Reason>)
      requires Valid()
      modifies this`users, this`evictions
      ensures Valid()
      ensures currentUserId in ids ==>
        r == Error(ForbidToDeleteYourself) && users == old(users) && evictions == old(evictions)
      ensures currentUserId !in ids ==>
        && |evictions| >= |old(evictions)| && evictions[..|old(evictions)|] == old(evictions)
        && (forall e :: e in evictions[|old(evictions)|..] <==>
              e.UserKey? && e.userId in ids * old(users).Keys)
        && ((r.Success? && users == old(users) - ids && ids * old(users).Keys != {})
            || (r == Error(OperationFailed) && users == old(users)))
    {
      if currentUserId in ids {
        return Error(ForbidToDeleteYourself);
      }
      var matched := ids * users.Keys;
      ClearUserCaches(matched);
      var ok: bool :| true;
      var count := 0;
      if ok {
        count := |matched|;
        users := users - ids;
      }
      r := ResultOf(count > 0, OperationFailed);
    }

    /** The cache loop of `DeleteAsync`: the per-user entries of every
        user in `matched`, in the order the query yields them. */
    method ClearUserCaches(matched: set<int>)
      modifies this`evictions
      ensures |evictions| >= |old(evictions)| && evictions[..|old(evictions)|] == old(evictions)
      ensures forall e :: e in evictions[|old(evictions)|..] <==> e.UserKey? && e.userId in matched
    {
      var rest := matched;
      ghost var done: set<int> := {};
      ghost var added: seq<CacheKey> := [];
      while rest != {}
        invariant rest <= matched && done == matched - rest
        invariant evictions == old(evictions) + added
        invariant forall e :: e in added <==> e.UserKey? && e.userId in done
        decreases |rest|
      {
        var id := Pick(rest);
        ClearUserCache(id);
        added := added + UserKeys(id);
        rest := rest - {id};
        done := done + {id};
      }
      assert evictions[|old(evictions)|..] == added;
    }

    /** `UpdateCenterAsync`: the caller's nickname, gender and phone; the
        phone must not belong to another user. */
    method UpdateCenter(currentUserId: int, dto: CenterInput) returns (r: OperateResult<Reason>)
      requires Valid()
      modifies this`users
      ensures Valid()
      ensures currentUserId !in old(users) ==> r == Error(NotExist) && users == old(users)
      ensures currentUserId in old(users) && PhoneOfOther(old(users), currentUserId, dto.phone) ==>
        r == Error(PhoneExists) && users == old(users)
      ensures currentUserId in old(users) && !PhoneOfOther(old(users), currentUserId, dto.phone) ==>
        var u := old(users)[currentUserId].(nickName := dto.nickName, gender := dto.gender, phone := dto.phone);
        (r.Success? && users == old(users)[currentUserId := u])
        || (r == Error(OperationFailed) && users == old(users))
      ensures Unique(old(users), Phone) ==> Unique(users, Phone)
    {
      if currentUserId !in users {
        return Error(NotExist);
      }
      if exists k :: k in users && users[k].phone == dto.phone && k != currentUserId {
        return Error(PhoneExists);
      }
      var stored := users[currentUserId];
      var u := stored.(nickName := dto.nickName, gender := dto.gender, phone := dto.phone);
      if Unique(users, Phone) && u.phone != stored.phone {
        assert !Taken(users, Phone, u.phone);
      }
      if Unique(users, Phone) {
        SetKeepsUnique(users, currentUserId, u, Phone);
      }
      var ok := Write(u);
      r := ResultOf(ok, OperationFailed);
    }

    /** `UpdatePasswordAsync`. The three inputs arrive encrypted; `token`
        is the caller's session token and `now` the clock reading. The call
        reports success once the guards pass, whether or not the write
        succeeds; only a successful write clears the caller's cached info
        and ends the session. */
    method UpdatePassword(currentUserId: int, token: string, oldCipher: string, newCipher: string,
                          confirmCipher: string, now: DateTime) returns (r: OperateResult<Reason>)
      requires Valid()
      modifies this`users, this`evictions
      ensures Valid()
      ensures r != Success || PasswordCheck(old(users), currentUserId, decrypt(oldCipher), decrypt(newCipher),
                                            decrypt(confirmCipher)).None?
      ensures
        var check := PasswordCheck(old(users), currentUserId, decrypt(oldCipher), decrypt(newCipher),
                                   decrypt(confirmCipher));
        && (check.Some? ==> r == Error(check.value) && users == old(users) && evictions == old(evictions))
        && (check.None? ==>
              var u := old(users)[currentUserId].(password := hash(decrypt(newCipher)),
                                                  passwordReSetTime := Some(now));
              r.Success?
              && ((users == old(users)[currentUserId := u]
                   && evictions == old(evictions) + [UserKey(UserInfoById, currentUserId), OnlineKey(token)])
                  || (users == old(users) && evictions == old(evictions))))
    {
      var oldPassword, newPassword, confirmPassword := decrypt(oldCipher), decrypt(newCipher), decrypt(confirmCipher);
      if oldPassword == newPassword {
        return Error(PasswordSameAsOld);
      }
      if newPassword != confirmPassword {
        return Error(InputsDoNotMatch);
      }
      if currentUserId !in users {
        return Error(NotExist);
      }
      var stored := users[currentUserId];
      if !verify(oldPassword, stored.password) {
        return Error(IncorrectOldPassword);
      }
      var u := stored.(password := hash(newPassword), passwordReSetTime := Some(now));
      var ok := Write(u);
      if ok {
        evictions := evictions + [UserKey(UserInfoById, currentUserId), OnlineKey(token)];
      }
      r := Success;
    }

    /** The guards of `UpdatePasswordAsync` on the decrypted inputs, in
        order. */
    ghost function PasswordCheck(users: map<int, User>, currentUserId: int, oldPassword: string,
                                 newPassword: string, confirmPassword: string): (r: Option<Reason>)
      reads this
      ensures r == Some(PasswordSameAsOld) <==> oldPassword == newPassword
      ensures r == Some(InputsDoNotMatch) <==> oldPassword != newPassword && newPassword != confirmPassword
      ensures r == Some(NotExist) <==>
        oldPassword != newPassword && newPassword == confirmPassword && currentUserId !in users
      ensures r == Some(IncorrectOldPassword) <==>
        oldPassword != newPassword && newPassword == confirmPassword && currentUserId in users
        && !verify(oldPassword, users[currentUserId].password)
      ensures r.None? <==>
        newPassword == confirmPassword && newPassword != oldPassword
        && currentUserId in users && verify(oldPassword, users[currentUserId].password)
    {
      if oldPassword == newPassword then Some(PasswordSameAsOld)
      else if newPassword != confirmPassword then Some(InputsDoNotMatch)
      else if currentUserId !in users then Some(NotExist)
      else if !verify(oldPassword, users[currentUserId].password) then Some(IncorrectOldPassword)
      else None
    }

    /** `UpdateEmailAsync`. `cachedCode` is the verification code the cache
        holds for the new address, if any. No check is made that another
        user already has that address. */
    method UpdateEmail(currentUserId: int, passwordCipher: string, email: string, code: string,
                       cachedCode: Option<string>) returns (r: OperateResult<Reason>)
      requires Valid()
      modifies this`users
      ensures Valid()
      ensures currentUserId !in old(users) ==> r == Error(NotExist) && users == old(users)
      ensures currentUserId in old(users) && !verify(decrypt(passwordCipher), old(users)[currentUserId].password) ==>
        r == Error(InvalidPassword) && users == old(users)
      ensures currentUserId in old(users) && verify(decrypt(passwordCipher), old(users)[currentUserId].password)
              && (IsNullOrEmpty(cachedCode) || cachedCode.value != code) ==>
        r == Error(InvalidVerificationCode) && users == old(users)
      ensures r.Success? ==>
        currentUserId in old(users) && cachedCode == Some(code) && code != ""
        && users == old(users)[currentUserId := old(users)[currentUserId].(email := email)]
      ensures r.Error? ==> users == old(users)
      ensures currentUserId in old(users) && verify(decrypt(passwordCipher), old(users)[currentUserId].password)
              && cachedCode == Some(code) && code != "" ==>
        r.Success? || r == Error(OperationFailed)
    {
      if currentUserId !in users {
        return Error(NotExist);
      }
      var stored := users[currentUserId];
      if !verify(decrypt(passwordCipher), stored.password) {
        return Error(InvalidPassword);
      }
      if IsNullOrEmpty(cachedCode) || cachedCode.value != code {
        return Error(InvalidVerificationCode);
      }
      var ok := Write(stored.(email := email));
      r := ResultOf(ok, OperationFailed);
    }

    /** `UpdateAvatarAsync`, without the file copy: the new name is built
        from the clock reading `now`, the generated id `nextId` and the
        uploaded file's name; the cached info is cleared before the write. */
    method UpdateAvatar(currentUserId: int, fileName: string, now: DateTime, nextId: nat, sep: char)
      returns (r: OperateResult<Reason>)
      requires Valid()
      modifies this`users, this`evictions
      ensures Valid()
      ensures currentUserId !in old(users) ==>
        r == Error(NotExist) && users == old(users) && evictions == old(evictions)
      ensures currentUserId in old(users) ==>
        var path := RelativeAvatarPath(AvatarName(now, nextId, fileName), sep);
        evictions == old(evictions) + [UserKey(UserInfoById, currentUserId)]
        && ((r.Success? && users == old(users)[currentUserId := old(users)[currentUserId].(avatarPath := Some(path))])
            || (r == Error(OperationFailed) && users == old(users)))
    {
      if currentUserId !in users {
        return Error(NotExist);
      }
      var path := RelativeAvatarPath(AvatarName(now, nextId, fileName), sep);
      var u := users[currentUserId].(avatarPath := Some(path));
      evictions := evictions + [UserKey(UserInfoById, currentUserId)];
      var ok := Write(u);
      r := ResultOf(ok, OperationFailed);
    }

    /** `QueryByNameAsync`: an e-mail address is looked up by email, any
        other name by username. */
    method QueryByName(userName: string) returns (r: Option<User>)
      requires Valid()
      ensures r.Some? ==> r.value.id in users && users[r.value.id] == r.value
      ensures r.Some? ==> if isEmail(userName) then r.value.email == userName else r.value.username == userName
      ensures r.None? ==> !Taken(users, if isEmail(userName) then Email else Username, userName)
    {
      var f := if isEmail(userName) then Email else Username;
      if exists k :: k in users && FieldOf(users[k], f) == userName {
        var k :| k in users && FieldOf(users[k], f) == userName;
        r := Some(users[k]);
      } else {
        r := None;
      }
    }
  }

  /** The five per-user cache entries `ClearUserCache` removes. */
  function UserKeys(id: int): (keys: seq<CacheKey>)
    ensures |keys| == 5
    ensures forall e :: e in keys <==> e.UserKey? && e.userId == id
  {
    var keys := [UserKey(UserInfoById, id), UserKey(UserPermissionUrls, id), UserKey(UserPermissionRoles, id),
                 UserKey(UserMenuById, id), UserKey(UserDataScopeById, id)];
    assert forall e: CacheKey :: e.UserKey? && e.userId == id ==> e in keys by {
      forall e: CacheKey | e.UserKey? && e.userId == id ensures e in keys {
        if e.kind == UserInfoById {
          assert e == keys[0];
        } else if e.kind == UserPermissionUrls {
          assert e == keys[1];
        } else if e.kind == UserPermissionRoles {
          assert e == keys[2];
        } else if e.kind == UserMenuById {
          assert e == keys[3];
        } else {
          assert e == keys[4];
        }
      }
    }
    keys
  }

  /** Another user than `id` already has this phone. */
  ghost predicate PhoneOfOther(users: map<int, User>, id: int, phone: string)
  {
    exists k :: k in users && k != id && users[k].phone == phone
  }
}
