/**
 * The tables of the H2 database behind the application, as values: the
 * user table, the invitation codes, and the Post and Reply tables. The SQL
 * statements the Database class issues become the functions here (a
 * DELETE ... WHERE is a Filter, an UPDATE ... WHERE an UpdateWhere, a
 * SELECT ... WHERE id = ? a first-match search), and the lemmas say what
 * they keep and what they change.
 */
module DatabaseTables {
  import opened Wrappers
  import opened JavaStrings

  // ---------------------------------------------------------------------
  // Column widths of the schema
  // ---------------------------------------------------------------------

  /** VARCHAR(255): every user column, the invitation e-mail, post and reply authors. */
  const NameWidth: nat := 255
  /** VARCHAR(500): post and reply content. */
  const ContentWidth: nat := 500
  /** VARCHAR(10): the author role of posts and replies, the invitation role and code. */
  const RoleWidth: nat := 10
  const CodeWidth: nat := 10

  // ---------------------------------------------------------------------
  // DELETE ... WHERE and UPDATE ... WHERE on a table held as a sequence
  // ---------------------------------------------------------------------

  /** The rows that `keep` accepts, in table order. */
  function Filter<T(!new)>(s: seq<T>, keep: T -> bool): (r: seq<T>)
    ensures |r| <= |s|
    ensures forall x :: x in r <==> x in s && keep(x)
  {
    if s == [] then []
    else (if keep(s[0]) then [s[0]] else []) + Filter(s[1..], keep)
  }

  /** Filtering a concatenation filters each part: the surviving rows keep their order. */
  lemma {:induction false} FilterConcat<T(!new)>(a: seq<T>, b: seq<T>, keep: T -> bool)
    ensures Filter(a + b, keep) == Filter(a, keep) + Filter(b, keep)
  {
    if a == [] {
      assert a + b == b;
    } else {
      assert (a + b)[1..] == a[1..] + b;
      FilterConcat(a[1..], b, keep);
    }
  }

  /** A filter that rejects no row leaves the table as it is. */
  lemma {:induction false} FilterKeepsAll<T(!new)>(s: seq<T>, keep: T -> bool)
    requires forall x :: x in s ==> keep(x)
    ensures Filter(s, keep) == s
  {
    if s != [] {
      assert forall x :: x in s[1..] ==> x in s;
      FilterKeepsAll(s[1..], keep);
      assert [s[0]] + s[1..] == s;
    }
  }

  /** A filter that accepts no row leaves nothing. */
  lemma {:induction false} FilterNone<T(!new)>(s: seq<T>, keep: T -> bool)
    requires forall x :: x in s ==> !keep(x)
    ensures Filter(s, keep) == []
  {
    if s != [] {
      assert s[0] in s;
      assert forall x :: x in s[1..] ==> x in s;
      FilterNone(s[1..], keep);
    }
  }

  /** A filter removes something exactly when some row fails it. */
  lemma {:induction false} FilterShrinks<T(!new)>(s: seq<T>, keep: T -> bool)
    ensures |Filter(s, keep)| < |s| <==> exists x :: x in s && !keep(x)
  {
    if s != [] {
      FilterShrinks(s[1..], keep);
      if !keep(s[0]) {
        assert s[0] in s;
      } else if exists x :: x in s && !keep(x) {
        var x :| x in s && !keep(x);
        assert x in s[1..];
      }
    }
  }

  /** Deleting twice with the same condition is deleting once. */
  lemma FilterIdempotent<T(!new)>(s: seq<T>, keep: T -> bool)
    ensures Filter(Filter(s, keep), keep) == Filter(s, keep)
  {
    FilterKeepsAll(Filter(s, keep), keep);
  }

  /** Every row that `hit` selects becomes `change` of itself; the others stay as they are. */
  function UpdateWhere<T>(s: seq<T>, hit: T -> bool, change: T -> T): (r: seq<T>)
    ensures |r| == |s|
    ensures forall i :: 0 <= i < |s| ==> r[i] == if hit(s[i]) then change(s[i]) else s[i]
  {
    if s == [] then []
    else [if hit(s[0]) then change(s[0]) else s[0]] + UpdateWhere(s[1..], hit, change)
  }

  // ---------------------------------------------------------------------
  // The user table
  // ---------------------------------------------------------------------

  /** A row of userDB, which is also what a User object carries. */
  datatype User = User(
    userName: string,
    password: string,
    firstName: string,
    middleName: string,
    lastName: string,
    preferredFirstName: string,
    emailAddress: string,
    adminRole: bool,
    newRole1: bool,
    newRole2: bool)

  /** The three role columns. */
  datatype Role = Admin | Role1 | Role2

  predicate HasRole(u: User, role: Role) {
    match role
    case Admin => u.adminRole
    case Role1 => u.newRole1
    case Role2 => u.newRole2
  }

  /** The five name and address columns that have their own getter and update method. */
  datatype Field = FirstName | MiddleName | LastName | PreferredFirstName | EmailAddress

  function FieldOf(u: User, f: Field): string {
    match f
    case FirstName => u.firstName
    case MiddleName => u.middleName
    case LastName => u.lastName
    case PreferredFirstName => u.preferredFirstName
    case EmailAddress => u.emailAddress
  }

  /** The row with column f set to v. */
  function WithField(u: User, f: Field, v: string): (r: User)
    ensures FieldOf(r, f) == v
    ensures forall g :: g != f ==> FieldOf(r, g) == FieldOf(u, g)
    ensures r.userName == u.userName && r.password == u.password
    ensures forall role :: HasRole(r, role) == HasRole(u, role)
  {
    match f
    case FirstName => u.(firstName := v)
    case MiddleName => u.(middleName := v)
    case LastName => u.(lastName := v)
    case PreferredFirstName => u.(preferredFirstName := v)
    case EmailAddress => u.(emailAddress := v)
  }

  /** The row with role column `role` set to `value`. */
  function WithRole(u: User, role: Role, value: bool): (r: User)
    ensures HasRole(r, role) == value
    ensures forall other :: other != role ==> HasRole(r, other) == HasRole(u, other)
    ensures r.userName == u.userName && r.password == u.password
    ensures forall f :: FieldOf(r, f) == FieldOf(u, f)
  {
    match role
    case Admin => u.(adminRole := value)
    case Role1 => u.(newRole1 := value)
    case Role2 => u.(newRole2 := value)
  }

  /** Every string column fits its VARCHAR(255). */
  predicate FitsUserTable(u: User) {
    Utf16Length(u.userName) <= NameWidth && Utf16Length(u.password) <= NameWidth
    && Utf16Length(u.firstName) <= NameWidth && Utf16Length(u.middleName) <= NameWidth
    && Utf16Length(u.lastName) <= NameWidth && Utf16Length(u.preferredFirstName) <= NameWidth
    && Utf16Length(u.emailAddress) <= NameWidth
  }

  /** The UNIQUE constraint on userName. */
  predicate UniqueNames(users: seq<User>) {
    forall i, j :: 0 <= i < j < |users| ==> users[i].userName != users[j].userName
  }

  predicate NameTaken(users: seq<User>, name: string) {
    exists i :: 0 <= i < |users| && users[i].userName == name
  }

  /** The user names the table holds. */
  ghost function NameSet(users: seq<User>): set<string> {
    set u | u in users :: u.userName
  }

  /** Under the UNIQUE constraint there are as many distinct names as rows. */
  lemma {:induction false} NameSetSize(users: seq<User>)
    requires UniqueNames(users)
    ensures |NameSet(users)| == |users|
  {
    if users != [] {
      var rest := users[1..];
      assert UniqueNames(rest) by {
        forall i, j | 0 <= i < j < |rest| ensures rest[i].userName != rest[j].userName {
          assert rest[i] == users[i + 1] && rest[j] == users[j + 1];
        }
      }
      NameSetSize(rest);
      var first := users[0].userName;
      assert first !in NameSet(rest) by {
        forall u | u in rest ensures u.userName != first {
          var k :| 0 <= k < |rest| && rest[k] == u;
          assert users[k + 1] == u;
        }
      }
      assert NameSet(users) == NameSet(rest) + {first} by {
        forall n ensures n in NameSet(users) <==> n in NameSet(rest) + {first} {
          if n in NameSet(users) && n != first {
            var u :| u in users && u.userName == n;
            var k :| 0 <= k < |users| && users[k] == u;
            assert rest[k - 1] == u;
          }
          if n in NameSet(rest) {
            var u :| u in rest && u.userName == n;
            assert u in users;
          }
        }
      }
    }
  }

  /** Index of the first row named `name`, or |users| when there is none. */
  function FindUserIndex(users: seq<User>, name: string): (i: nat)
    ensures i <= |users|
    ensures i < |users| ==> users[i].userName == name
    ensures forall j :: 0 <= j < i ==> users[j].userName != name
  {
    if users == [] then 0
    else if users[0].userName == name then 0
    else
      var k := FindUserIndex(users[1..], name);
      assert forall j :: 1 <= j < 1 + k ==> users[j] == users[1..][j - 1];
      1 + k
  }

  /** The row a `SELECT ... WHERE userName = ?` reads, if there is one. */
  function FindUser(users: seq<User>, name: string): (r: Option<User>)
    ensures r.Some? <==> NameTaken(users, name)
    ensures r.Some? ==> r.value in users && r.value.userName == name
  {
    var i := FindUserIndex(users, name);
    if i < |users| then Some(users[i]) else None
  }

  /** With unique names, the row FindUser reads is the only one with that name. */
  lemma FindUserUnique(users: seq<User>, i: nat)
    requires UniqueNames(users) && i < |users|
    ensures FindUser(users, users[i].userName) == Some(users[i])
  {
    var k := FindUserIndex(users, users[i].userName);
    assert k <= i;
  }

  /**
   * The query of loginAdmin, loginRole1 and loginRole2: some row has the
   * given user name and password and the role set.
   */
  predicate CanLogin(users: seq<User>, who: User, role: Role) {
    exists i :: 0 <= i < |users| && users[i].userName == who.userName && users[i].password == who.password
                && HasRole(users[i], role)
  }

  /** With unique names, a login succeeds exactly when the row of that name has the password and the role. */
  lemma LoginByName(users: seq<User>, who: User, role: Role)
    requires UniqueNames(users)
    ensures CanLogin(users, who, role) <==>
            FindUser(users, who.userName).Some?
            && FindUser(users, who.userName).value.password == who.password
            && HasRole(FindUser(users, who.userName).value, role)
  {
    if CanLogin(users, who, role) {
      var i :| 0 <= i < |users| && users[i].userName == who.userName && users[i].password == who.password
               && HasRole(users[i], role);
      FindUserUnique(users, i);
    }
    var r := FindUser(users, who.userName);
    if r.Some? {
      var i := FindUserIndex(users, who.userName);
      assert users[i] == r.value;
    }
  }

  /** A user just added under a new name logs in with its own password in exactly the roles it has. */
  lemma LoginAfterRegister(users: seq<User>, u: User, role: Role)
    requires !NameTaken(users, u.userName)
    ensures CanLogin(users + [u], u, role) <==> HasRole(u, role)
  {
    var t := users + [u];
    assert t[|users|] == u;
    if CanLogin(t, u, role) {
      var i :| 0 <= i < |t| && t[i].userName == u.userName && t[i].password == u.password && HasRole(t[i], role);
      assert i == |users|;
    }
  }

  /** Updating column f of the rows named `name` (UPDATE userDB SET f = ? WHERE userName = ?). */
  function SetUserField(users: seq<User>, name: string, f: Field, v: string): (r: seq<User>)
    ensures |r| == |users|
    ensures forall i :: 0 <= i < |users| ==>
              r[i] == if users[i].userName == name then WithField(users[i], f, v) else users[i]
  {
    UpdateWhere(users, (u: User) => u.userName == name, (u: User) => WithField(u, f, v))
  }

  /** Updating a role column of the rows named `name`. */
  function SetUserRole(users: seq<User>, name: string, role: Role, value: bool): (r: seq<User>)
    ensures |r| == |users|
    ensures forall i :: 0 <= i < |users| ==>
              r[i] == if users[i].userName == name then WithRole(users[i], role, value) else users[i]
  {
    UpdateWhere(users, (u: User) => u.userName == name, (u: User) => WithRole(u, role, value))
  }

  /** An update of a name no row has changes no row. */
  lemma SetUserFieldMissing(users: seq<User>, name: string, f: Field, v: string)
    requires !NameTaken(users, name)
    ensures SetUserField(users, name, f, v) == users
  {
    var r := SetUserField(users, name, f, v);
    assert forall i :: 0 <= i < |users| ==> r[i] == users[i];
  }

  /** An update keeps every user name, so the UNIQUE constraint still holds. */
  lemma SetUserFieldKeepsNames(users: seq<User>, name: string, f: Field, v: string)
    requires UniqueNames(users)
    ensures UniqueNames(SetUserField(users, name, f, v))
    ensures forall n :: NameTaken(SetUserField(users, name, f, v), n) <==> NameTaken(users, n)
  {
    var r := SetUserField(users, name, f, v);
    assert forall i :: 0 <= i < |users| ==> r[i].userName == users[i].userName;
  }

  lemma SetUserRoleKeepsNames(users: seq<User>, name: string, role: Role, value: bool)
    requires UniqueNames(users)
    ensures UniqueNames(SetUserRole(users, name, role, value))
    ensures forall n :: NameTaken(SetUserRole(users, name, role, value), n) <==> NameTaken(users, n)
  {
    var r := SetUserRole(users, name, role, value);
    assert forall i :: 0 <= i < |users| ==> r[i].userName == users[i].userName;
  }

  /** After updating column f of an existing user, reading that column for that user gives the new value. */
  lemma FieldRoundTrip(users: seq<User>, name: string, f: Field, v: string)
    requires UniqueNames(users) && NameTaken(users, name)
    ensures FindUser(SetUserField(users, name, f, v), name).Some?
    ensures FieldOf(FindUser(SetUserField(users, name, f, v), name).value, f) == v
  {
    var r := SetUserField(users, name, f, v);
    var i := FindUserIndex(users, name);
    SetUserFieldKeepsNames(users, name, f, v);
    assert r[i].userName == name;
    FindUserUnique(r, i);
  }

  /** The value of column f for the user named `name`: null (None) when there is no such user. */
  function ColumnOf(users: seq<User>, name: string, f: Field): (r: Option<string>)
    ensures r.Some? <==> NameTaken(users, name)
    ensures r.Some? ==> exists u :: u in users && u.userName == name && FieldOf(u, f) == r.value
  {
    match FindUser(users, name)
    case None => None
    case Some(u) => Some(FieldOf(u, f))
  }

  /**
   * The five column getters as written. getPreferredFirstName selects the
   * preferredFirstName column but then reads "firstName" from the result,
   * a column the result does not have; the SQLException that follows is
   * caught and null returned, so it never yields a value.
   */
  function SelectColumn(users: seq<User>, name: string, f: Field): (r: Option<string>)
    ensures f != PreferredFirstName ==> r == ColumnOf(users, name, f)
    ensures f == PreferredFirstName ==> r.None?
  {
    if f == PreferredFirstName then None else ColumnOf(users, name, f)
  }

  /** A stored preferred first name that the getter as written fails to return. */
  lemma PreferredFirstNameLost()
    ensures var u := User("ann", "pw", "Ann", "", "Lee", "Annie", "ann@example.com", false, true, false);
            ColumnOf([u], "ann", PreferredFirstName) == Some("Annie")
            && SelectColumn([u], "ann", PreferredFirstName) == None
  {
    var u := User("ann", "pw", "Ann", "", "Lee", "Annie", "ann@example.com", false, true, false);
    assert FindUserIndex([u], "ann") == 0;
  }

  /** After updating column f of an existing user, reading that column for that user gives the new value. */
  lemma ColumnRoundTrip(users: seq<User>, name: string, f: Field, v: string)
    requires UniqueNames(users) && NameTaken(users, name)
    ensures ColumnOf(SetUserField(users, name, f, v), name, f) == Some(v)
  {
    FieldRoundTrip(users, name, f, v);
  }

  /** The user-list strings after the "<Select a User>" entry: every name, in table order. */
  function UserNames(users: seq<User>): (names: seq<string>)
    ensures |names| == |users|
    ensures forall i :: 0 <= i < |users| ==> names[i] == users[i].userName
  {
    if users == [] then [] else [users[0].userName] + UserNames(users[1..])
  }

  /** The roles whose flags are set for a user. */
  ghost function RolesOf(u: User): set<Role> {
    set r: Role | HasRole(u, r)
  }

  /** The roles of a user are the flags that are set, each counted once. */
  lemma RolesOfSize(u: User)
    ensures |RolesOf(u)| == (if u.adminRole then 1 else 0) + (if u.newRole1 then 1 else 0)
                            + (if u.newRole2 then 1 else 0)
  {
    var a: set<Role> := if u.adminRole then {Admin} else {};
    var b: set<Role> := if u.newRole1 then {Role1} else {};
    var c: set<Role> := if u.newRole2 then {Role2} else {};
    RolesOfParts(u, a, b, c);
    DisjointUnionSize(a, b);
    DisjointUnionSize(a + b, c);
  }

  /** RolesOf splits into one part per flag. */
  lemma RolesOfParts(u: User, a: set<Role>, b: set<Role>, c: set<Role>)
    requires a == (if u.adminRole then {Admin} else {})
    requires b == (if u.newRole1 then {Role1} else {})
    requires c == (if u.newRole2 then {Role2} else {})
    ensures RolesOf(u) == a + b + c
  {
    forall r: Role ensures r in RolesOf(u) <==> r in a + b + c {
      match r
      case Admin =>
      case Role1 =>
      case Role2 =>
    }
  }

  lemma DisjointUnionSize<T>(x: set<T>, y: set<T>)
    requires x !! y
    ensures |x + y| == |x| + |y|
  {
    assert x * y == {};
  }

  /** getNumberOfRoles: how many of the three role flags are set. */
  function NumberOfRoles(u: User): (n: nat)
    ensures n == |RolesOf(u)|
    ensures n <= 3
    ensures n == 0 <==> !u.adminRole && !u.newRole1 && !u.newRole2
    ensures n == 3 <==> u.adminRole && u.newRole1 && u.newRole2
  {
    RolesOfSize(u);
    var n := 0;
    var n := if u.adminRole then n + 1 else n;
    var n := if u.newRole1 then n + 1 else n;
    if u.newRole2 then n + 1 else n
  }

  // ---------------------------------------------------------------------
  // The invitation codes
  // ---------------------------------------------------------------------

  /** A row of InvitationCodes apart from its key. */
  datatype Invitation = Invitation(emailAddress: string, role: string)

  /** Whether an INSERT of this invitation satisfies the primary key and the column widths. */
  predicate InvitationFits(codes: map<string, Invitation>, code: string, emailAddress: string, role: string) {
    code !in codes && Utf16Length(code) <= CodeWidth && Utf16Length(emailAddress) <= NameWidth
    && Utf16Length(role) <= RoleWidth
  }

  /**
   * removeInvitationAfterUse deletes the row of a code: removing a code a
   * second time changes nothing, and removing a code that is not stored
   * changes nothing either.
   */
  lemma RemoveCodeTwice(codes: map<string, Invitation>, code: string)
    ensures (codes - {code}) - {code} == codes - {code}
    ensures code !in codes ==> codes - {code} == codes
  {
  }

  // ---------------------------------------------------------------------
  // The Post and Reply tables
  // ---------------------------------------------------------------------

  /** A row of Post; authorRole is the one nullable column (None is SQL NULL). */
  datatype PostRow = PostRow(id: Int32, author: string, content: string, authorRole: Option<string>)

  datatype ReplyRow = ReplyRow(id: Int32, postID: Int32, author: string, content: string, authorRole: Option<string>)

  /** Whether an INSERT with these values fits the VARCHAR columns (a NULL role always fits). */
  predicate RowFits(author: string, content: string, authorRole: Option<string>) {
    Utf16Length(author) <= NameWidth && Utf16Length(content) <= ContentWidth
    && (authorRole.Some? ==> Utf16Length(authorRole.value) <= RoleWidth)
  }

  /** 300 emoji are 600 UTF-16 units: too long for the content column, although they are 300 characters. */
  lemma SupplementaryContentTooLong()
    ensures !RowFits("ann", seq(300, _ => '\U{1F600}'), Some("Role1"))
  {
    var c: string := seq(300, _ => '\U{1F600}');
    Utf16LengthIff(c);
  }

  /**
   * The primary key of Post, with the identity column's state: ids are
   * unique and lie between 1 and the next id the table will hand out.
   */
  predicate PostKeys(posts: seq<PostRow>, nextId: int) {
    1 <= nextId
    && (forall i :: 0 <= i < |posts| ==> 1 <= posts[i].id < nextId)
    && (forall i, j :: 0 <= i < j < |posts| ==> PostIdAt(posts, i) != PostIdAt(posts, j))
  }

  predicate ReplyKeys(replies: seq<ReplyRow>, nextId: int) {
    1 <= nextId
    && (forall i :: 0 <= i < |replies| ==> 1 <= replies[i].id < nextId)
    && (forall i, j :: 0 <= i < j < |replies| ==> ReplyIdAt(replies, i) != ReplyIdAt(replies, j))
  }

  /**
   * The id of the row at index i. The uniqueness clauses of the keys are
   * stated over these terms so that they come into play only where a proof
   * names two rows, through PostIdsDistinct and ReplyIdsDistinct.
   */
  function PostIdAt(posts: seq<PostRow>, i: int): int
    requires 0 <= i < |posts|
  {
    posts[i].id
  }

  function ReplyIdAt(replies: seq<ReplyRow>, i: int): int
    requires 0 <= i < |replies|
  {
    replies[i].id
  }

  /** Two rows of a keyed Post table with the same id are the same row. */
  lemma PostIdsDistinct(posts: seq<PostRow>, nextId: int, i: int, j: int)
    requires PostKeys(posts, nextId) && 0 <= i < |posts| && 0 <= j < |posts| && posts[i].id == posts[j].id
    ensures i == j
  {
    var a, b := PostIdAt(posts, i), PostIdAt(posts, j);
  }

  lemma ReplyIdsDistinct(replies: seq<ReplyRow>, nextId: int, i: int, j: int)
    requires ReplyKeys(replies, nextId) && 0 <= i < |replies| && 0 <= j < |replies| && replies[i].id == replies[j].id
    ensures i == j
  {
    var a, b := ReplyIdAt(replies, i), ReplyIdAt(replies, j);
  }

  /** A table with the same ids, row by row, as a keyed one is keyed too. */
  lemma SameIdsKeepPostKeys(posts: seq<PostRow>, r: seq<PostRow>, nextId: int)
    requires PostKeys(posts, nextId) && |r| == |posts| && forall k :: 0 <= k < |posts| ==> r[k].id == posts[k].id
    ensures PostKeys(r, nextId)
  {
    forall i, j | 0 <= i < j < |r| ensures PostIdAt(r, i) != PostIdAt(r, j) {
      var a, b := PostIdAt(posts, i), PostIdAt(posts, j);
    }
  }

  lemma SameIdsKeepReplyKeys(replies: seq<ReplyRow>, r: seq<ReplyRow>, nextId: int)
    requires ReplyKeys(replies, nextId) && |r| == |replies| && forall k :: 0 <= k < |replies| ==> r[k].id == replies[k].id
    ensures ReplyKeys(r, nextId)
  {
    forall i, j | 0 <= i < j < |r| ensures ReplyIdAt(r, i) != ReplyIdAt(r, j) {
      var a, b := ReplyIdAt(replies, i), ReplyIdAt(replies, j);
    }
  }

  predicate PostExists(posts: seq<PostRow>, id: int) {
    exists p :: p in posts && p.id == id
  }

  predicate ReplyExists(replies: seq<ReplyRow>, id: int) {
    exists r :: r in replies && r.id == id
  }

  /** The foreign key Reply.postID references Post(id). */
  predicate RepliesReferencePosts(replies: seq<ReplyRow>, posts: seq<PostRow>) {
    forall r :: r in replies ==> PostExists(posts, r.postID)
  }

  /** The row `SELECT * FROM Post WHERE id = ?` reads first, if any. */
  function FindPost(posts: seq<PostRow>, id: int): (r: Option<PostRow>)
    ensures r.Some? ==> r.value in posts && r.value.id == id
    ensures r.None? <==> !PostExists(posts, id)
  {
    if posts == [] then None
    else if posts[0].id == id then Some(posts[0])
    else
      var r := FindPost(posts[1..], id);
      assert forall p :: p in posts[1..] ==> p in posts;
      assert posts[0] !in posts[1..] ==> forall p :: p in posts ==> p == posts[0] || p in posts[1..];
      r
  }

  function FindReply(replies: seq<ReplyRow>, id: int): (r: Option<ReplyRow>)
    ensures r.Some? ==> r.value in replies && r.value.id == id
    ensures r.None? <==> !ReplyExists(replies, id)
  {
    if replies == [] then None
    else if replies[0].id == id then Some(replies[0])
    else
      var r := FindReply(replies[1..], id);
      assert forall p :: p in replies[1..] ==> p in replies;
      assert forall p :: p in replies ==> p == replies[0] || p in replies[1..];
      r
  }

  /** With unique ids, the row found for an id is the only row with that id. */
  lemma FindPostUnique(posts: seq<PostRow>, nextId: int, p: PostRow)
    requires PostKeys(posts, nextId) && p in posts
    ensures FindPost(posts, p.id) == Some(p)
  {
    var q := FindPost(posts, p.id).value;
    var i :| 0 <= i < |posts| && posts[i] == p;
    var j :| 0 <= j < |posts| && posts[j] == q;
    PostIdsDistinct(posts, nextId, i, j);
  }

  lemma FindReplyUnique(replies: seq<ReplyRow>, nextId: int, r: ReplyRow)
    requires ReplyKeys(replies, nextId) && r in replies
    ensures FindReply(replies, r.id) == Some(r)
  {
    var q := FindReply(replies, r.id).value;
    var i :| 0 <= i < |replies| && replies[i] == r;
    var j :| 0 <= j < |replies| && replies[j] == q;
    ReplyIdsDistinct(replies, nextId, i, j);
  }

  /** The rows of `SELECT * FROM Reply WHERE postID = ?`, in table order. */
  function RepliesOf(replies: seq<ReplyRow>, postId: int): (r: seq<ReplyRow>)
    ensures forall x :: x in r <==> x in replies && x.postID == postId
  {
    Filter(replies, (x: ReplyRow) => x.postID == postId)
  }

  /** The table after `DELETE FROM Reply WHERE postID = ?`. */
  function RepliesNotOf(replies: seq<ReplyRow>, postId: int): (r: seq<ReplyRow>)
    ensures forall x :: x in r <==> x in replies && x.postID != postId
  {
    Filter(replies, (x: ReplyRow) => x.postID != postId)
  }

  /** The table after `DELETE FROM Post WHERE id = ?`. */
  function PostsWithout(posts: seq<PostRow>, id: int): (r: seq<PostRow>)
    ensures forall x :: x in r <==> x in posts && x.id != id
  {
    Filter(posts, (x: PostRow) => x.id != id)
  }

  /** The table after `DELETE FROM Reply WHERE id = ?`. */
  function RepliesWithout(replies: seq<ReplyRow>, id: int): (r: seq<ReplyRow>)
    ensures forall x :: x in r <==> x in replies && x.id != id
  {
    Filter(replies, (x: ReplyRow) => x.id != id)
  }

  /** Calling deletePost a second time with the same id deletes nothing more from either table. */
  lemma DeletePostTwice(posts: seq<PostRow>, replies: seq<ReplyRow>, id: int)
    ensures PostsWithout(PostsWithout(posts, id), id) == PostsWithout(posts, id)
    ensures RepliesNotOf(RepliesNotOf(replies, id), id) == RepliesNotOf(replies, id)
  {
    FilterIdempotent(posts, (x: PostRow) => x.id != id);
    FilterIdempotent(replies, (x: ReplyRow) => x.postID != id);
  }

  /** Calling deleteReply a second time with the same id deletes nothing more. */
  lemma DeleteReplyTwice(replies: seq<ReplyRow>, id: int)
    ensures RepliesWithout(RepliesWithout(replies, id), id) == RepliesWithout(replies, id)
  {
    FilterIdempotent(replies, (x: ReplyRow) => x.id != id);
  }

  /** The table after `UPDATE Post SET content = ? WHERE id = ?`. */
  function PostsWithContent(posts: seq<PostRow>, id: int, content: string): (r: seq<PostRow>)
    ensures |r| == |posts|
    ensures forall i :: 0 <= i < |posts| ==>
              r[i] == if posts[i].id == id then posts[i].(content := content) else posts[i]
  {
    UpdateWhere(posts, (p: PostRow) => p.id == id, (p: PostRow) => p.(content := content))
  }

  /** The table after `UPDATE Reply SET content = ? WHERE id = ?`. */
  function RepliesWithContent(replies: seq<ReplyRow>, id: int, content: string): (r: seq<ReplyRow>)
    ensures |r| == |replies|
    ensures forall i :: 0 <= i < |replies| ==>
              r[i] == if replies[i].id == id then replies[i].(content := content) else replies[i]
  {
    UpdateWhere(replies, (p: ReplyRow) => p.id == id, (p: ReplyRow) => p.(content := content))
  }

  /** A post inserted under the next identity value is the one a later getPost of that id reads. */
  lemma CreatedPostFound(posts: seq<PostRow>, nextId: int, row: PostRow)
    requires PostKeys(posts, nextId) && row.id == nextId
    ensures FindPost(posts + [row], nextId) == Some(row)
  {
    AppendKeepsPostKeys(posts, nextId, row);
    FindPostUnique(posts + [row], nextId + 1, row);
  }

  lemma CreatedReplyFound(replies: seq<ReplyRow>, nextId: int, row: ReplyRow)
    requires ReplyKeys(replies, nextId) && row.id == nextId
    ensures FindReply(replies + [row], nextId) == Some(row)
  {
    AppendKeepsReplyKeys(replies, nextId, row);
    FindReplyUnique(replies + [row], nextId + 1, row);
  }

  /** After an update of an existing post, getPost of that id reads the new content and the old author and role. */
  lemma UpdatedPostFound(posts: seq<PostRow>, nextId: int, id: int, content: string)
    requires PostKeys(posts, nextId) && PostExists(posts, id)
    ensures FindPost(PostsWithContent(posts, id, content), id) == Some(FindPost(posts, id).value.(content := content))
  {
    var old_ := FindPost(posts, id).value;
    var r := PostsWithContent(posts, id, content);
    var i :| 0 <= i < |posts| && posts[i] == old_;
    SameIdsKeepPostKeys(posts, r, nextId);
    assert r[i] == old_.(content := content);
    FindPostUnique(r, nextId, r[i]);
  }

  lemma UpdatedReplyFound(replies: seq<ReplyRow>, nextId: int, id: int, content: string)
    requires ReplyKeys(replies, nextId) && ReplyExists(replies, id)
    ensures FindReply(RepliesWithContent(replies, id, content), id) == Some(FindReply(replies, id).value.(content := content))
  {
    var old_ := FindReply(replies, id).value;
    var r := RepliesWithContent(replies, id, content);
    var i :| 0 <= i < |replies| && replies[i] == old_;
    SameIdsKeepReplyKeys(replies, r, nextId);
    assert r[i] == old_.(content := content);
    FindReplyUnique(r, nextId, r[i]);
  }

  /** With unique ids, deleting the post with a given author's id removes only that author's post. */
  lemma DeleteTouchesOnlyAuthor(posts: seq<PostRow>, nextId: int, id: int, author: string)
    requires PostKeys(posts, nextId) && PostExists(posts, id) && FindPost(posts, id).value.author == author
    ensures forall p :: p in posts && p !in PostsWithout(posts, id) ==> p.author == author
  {
    forall p | p in posts && p !in PostsWithout(posts, id) ensures p.author == author {
      FindPostUnique(posts, nextId, p);
    }
  }

  /** With unique ids, an update of the post with a given author's id changes only that author's post. */
  lemma EditTouchesOnlyAuthor(posts: seq<PostRow>, nextId: int, id: int, content: string, author: string)
    requires PostKeys(posts, nextId) && PostExists(posts, id) && FindPost(posts, id).value.author == author
    ensures forall i :: 0 <= i < |posts| && PostsWithContent(posts, id, content)[i] != posts[i] ==>
              posts[i].author == author
  {
    forall i | 0 <= i < |posts| && PostsWithContent(posts, id, content)[i] != posts[i]
      ensures posts[i].author == author
    {
      assert posts[i] in posts;
      FindPostUnique(posts, nextId, posts[i]);
    }
  }

  lemma DeleteReplyTouchesOnlyAuthor(replies: seq<ReplyRow>, nextId: int, id: int, author: string)
    requires ReplyKeys(replies, nextId) && ReplyExists(replies, id) && FindReply(replies, id).value.author == author
    ensures forall r :: r in replies && r !in RepliesWithout(replies, id) ==> r.author == author
  {
    forall r | r in replies && r !in RepliesWithout(replies, id) ensures r.author == author {
      FindReplyUnique(replies, nextId, r);
    }
  }

  lemma EditReplyTouchesOnlyAuthor(replies: seq<ReplyRow>, nextId: int, id: int, content: string, author: string)
    requires ReplyKeys(replies, nextId) && ReplyExists(replies, id) && FindReply(replies, id).value.author == author
    ensures forall i :: 0 <= i < |replies| && RepliesWithContent(replies, id, content)[i] != replies[i] ==>
              replies[i].author == author
  {
    forall i | 0 <= i < |replies| && RepliesWithContent(replies, id, content)[i] != replies[i]
      ensures replies[i].author == author
    {
      assert replies[i] in replies;
      FindReplyUnique(replies, nextId, replies[i]);
    }
  }

  /** Deletions keep the keys: a sub-table of a keyed table is keyed with the same next id. */
  lemma {:induction false} FilterKeepsPostKeys(posts: seq<PostRow>, nextId: int, keep: PostRow -> bool)
    requires PostKeys(posts, nextId)
    ensures PostKeys(Filter(posts, keep), nextId)
  {
    if posts != [] {
      var rest := posts[1..];
      assert PostKeys(rest, nextId) by {
        forall i, j | 0 <= i < j < |rest| ensures PostIdAt(rest, i) != PostIdAt(rest, j) {
          var a, b := PostIdAt(posts, i + 1), PostIdAt(posts, j + 1);
        }
      }
      FilterKeepsPostKeys(rest, nextId, keep);
      var tail := Filter(rest, keep);
      forall x | x in tail ensures x.id != posts[0].id {
        var k :| 1 <= k < |posts| && posts[k] == x;
        var a, b := PostIdAt(posts, 0), PostIdAt(posts, k);
      }
      var r := Filter(posts, keep);
      forall i, j | 0 <= i < j < |r| ensures PostIdAt(r, i) != PostIdAt(r, j) {
        if keep(posts[0]) {
          if i == 0 {
            assert r[j] == tail[j - 1] && tail[j - 1] in tail;
          } else {
            var a, b := PostIdAt(tail, i - 1), PostIdAt(tail, j - 1);
          }
        } else {
          var a, b := PostIdAt(tail, i), PostIdAt(tail, j);
        }
      }
    }
  }

  lemma {:induction false} FilterKeepsReplyKeys(replies: seq<ReplyRow>, nextId: int, keep: ReplyRow -> bool)
    requires ReplyKeys(replies, nextId)
    ensures ReplyKeys(Filter(replies, keep), nextId)
  {
    if replies != [] {
      var rest := replies[1..];
      assert ReplyKeys(rest, nextId) by {
        forall i, j | 0 <= i < j < |rest| ensures ReplyIdAt(rest, i) != ReplyIdAt(rest, j) {
          var a, b := ReplyIdAt(replies, i + 1), ReplyIdAt(replies, j + 1);
        }
      }
      FilterKeepsReplyKeys(rest, nextId, keep);
      var tail := Filter(rest, keep);
      forall x | x in tail ensures x.id != replies[0].id {
        var k :| 1 <= k < |replies| && replies[k] == x;
        var a, b := ReplyIdAt(replies, 0), ReplyIdAt(replies, k);
      }
      var r := Filter(replies, keep);
      forall i, j | 0 <= i < j < |r| ensures ReplyIdAt(r, i) != ReplyIdAt(r, j) {
        if keep(replies[0]) {
          if i == 0 {
            assert r[j] == tail[j - 1] && tail[j - 1] in tail;
          } else {
            var a, b := ReplyIdAt(tail, i - 1), ReplyIdAt(tail, j - 1);
          }
        } else {
          var a, b := ReplyIdAt(tail, i), ReplyIdAt(tail, j);
        }
      }
    }
  }

  /** A row appended under the next identity value keeps the keys, with the identity moved on. */
  lemma AppendKeepsPostKeys(posts: seq<PostRow>, nextId: int, row: PostRow)
    requires PostKeys(posts, nextId) && row.id == nextId
    ensures PostKeys(posts + [row], nextId + 1)
  {
    var r := posts + [row];
    forall i, j | 0 <= i < j < |r| ensures PostIdAt(r, i) != PostIdAt(r, j) {
      if j < |posts| {
        var a, b := PostIdAt(posts, i), PostIdAt(posts, j);
      }
    }
  }

  lemma AppendKeepsReplyKeys(replies: seq<ReplyRow>, nextId: int, row: ReplyRow)
    requires ReplyKeys(replies, nextId) && row.id == nextId
    ensures ReplyKeys(replies + [row], nextId + 1)
  {
    var r := replies + [row];
    forall i, j | 0 <= i < j < |r| ensures ReplyIdAt(r, i) != ReplyIdAt(r, j) {
      if j < |replies| {
        var a, b := ReplyIdAt(replies, i), ReplyIdAt(replies, j);
      }
    }
  }
}
