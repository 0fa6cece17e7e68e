/**
 * The Database class: one object holding the four tables and the
 * "current user" the application last registered, fetched or updated.
 * Each SQL statement the Java issues is an update of the table fields; an
 * SQLException the Java catches becomes the error result the Java returns
 * (-1, false, null) with the tables unchanged.
 */
module Database {
  import opened Wrappers
  import opened JavaStrings
  import opened EntityClasses
  import opened DatabaseTables

  /** The first entry of the user list, before the user names. */
  const SelectUser: string := "<Select a User>"

  /** The current-user fields before anything has been registered or fetched (Java's nulls and falses). */
  const NoUser: User := User("", "", "", "", "", "", "", false, false, false)

  /** What a Post object built from a row of the Post table holds. */
  predicate ShowsPost(p: Post, row: PostRow)
    reads p
  {
    p.GetPostID() == row.id && p.GetAuthor() == row.author && p.GetContent() == row.content
    && p.GetAuthorRole() == row.authorRole
  }

  predicate ShowsReply(r: Reply, row: ReplyRow)
    reads r
  {
    r.GetReplyID() == row.id && r.GetPostID() == row.postID && r.GetAuthor() == row.author
    && r.GetContent() == row.content && r.GetAuthorRole() == row.authorRole
  }

  /** The result-set loop of getAllPosts: one new Post per row, in row order. */
  method PostObjects(rows: seq<PostRow>) returns (list: seq<Post>)
    ensures |list| == |rows|
    ensures forall i :: 0 <= i < |rows| ==> ShowsPost(list[i], rows[i])
  {
    list := [];
    for i := 0 to |rows|
      invariant |list| == i
      invariant forall k :: 0 <= k < i ==> ShowsPost(list[k], rows[k])
    {
      var p := new Post(rows[i].id, rows[i].author, rows[i].content, rows[i].authorRole);
      list := list + [p];
    }
  }

  /** The result-set loop of getRepliesByPost and getAllReplies. */
  method ReplyObjects(rows: seq<ReplyRow>) returns (list: seq<Reply>)
    ensures |list| == |rows|
    ensures forall i :: 0 <= i < |rows| ==> ShowsReply(list[i], rows[i])
  {
    list := [];
    for i := 0 to |rows|
      invariant |list| == i
      invariant forall k :: 0 <= k < i ==> ShowsReply(list[k], rows[k])
    {
      var r := new Reply(rows[i].id, rows[i].postID, rows[i].author, rows[i].content, rows[i].authorRole);
      list := list + [r];
    }
  }

  /** The three role names updateUserRole accepts. */
  function RoleNamed(role: string): (r: Option<Role>)
    ensures r == Some(Admin) <==> role == "Admin"
    ensures r == Some(Role1) <==> role == "Role1"
    ensures r == Some(Role2) <==> role == "Role2"
  {
    if role == "Admin" then Some(Admin)
    else if role == "Role1" then Some(Role1)
    else if role == "Role2" then Some(Role2)
    else None
  }

  // ---------------------------------------------------------------------
  // Table invariants, one per table
  // ---------------------------------------------------------------------

  ghost predicate UsersValid(users: seq<User>) {
    UniqueNames(users) && forall u :: u in users ==> FitsUserTable(u)
  }

  ghost predicate InvitationsValid(codes: map<string, Invitation>) {
    forall c :: c in codes ==> Utf16Length(c) <= CodeWidth && Utf16Length(codes[c].emailAddress) <= NameWidth
                               && Utf16Length(codes[c].role) <= RoleWidth
  }

  /** Keys, identity state (an INT column: ids never pass INT_MAX) and column widths of Post. */
  ghost predicate PostsValid(posts: seq<PostRow>, nextId: int) {
    PostKeys(posts, nextId) && nextId <= INT_MAX + 1
    && forall p :: p in posts ==> RowFits(p.author, p.content, p.authorRole)
  }

  /** The same for Reply, together with its foreign key into Post. */
  ghost predicate RepliesValid(replies: seq<ReplyRow>, nextId: int, posts: seq<PostRow>) {
    ReplyKeys(replies, nextId) && nextId <= INT_MAX + 1
    && (forall r :: r in replies ==> RowFits(r.author, r.content, r.authorRole))
    && RepliesReferencePosts(replies, posts)
  }

  /** Deleting a post together with its replies keeps both tables valid. */
  lemma DeleteKeepsValid(posts: seq<PostRow>, nextPostId: int, replies: seq<ReplyRow>, nextReplyId: int, id: int)
    requires PostsValid(posts, nextPostId) && RepliesValid(replies, nextReplyId, posts)
    ensures PostsValid(PostsWithout(posts, id), nextPostId)
    ensures RepliesValid(RepliesNotOf(replies, id), nextReplyId, PostsWithout(posts, id))
    ensures RepliesOf(RepliesNotOf(replies, id), id) == []
  {
    FilterKeepsPostKeys(posts, nextPostId, (x: PostRow) => x.id != id);
    FilterKeepsReplyKeys(replies, nextReplyId, (x: ReplyRow) => x.postID != id);
    var ps := PostsWithout(posts, id);
    forall r | r in RepliesNotOf(replies, id) ensures PostExists(ps, r.postID) {
      var p :| p in posts && p.id == r.postID;
      assert p in ps;
    }
    FilterNone(RepliesNotOf(replies, id), (x: ReplyRow) => x.postID == id);
  }

  /** Replacing the content of some posts by content that fits keeps the Post table valid, and the replies' references. */
  lemma UpdatePostKeepsValid(posts: seq<PostRow>, nextPostId: int, replies: seq<ReplyRow>, nextReplyId: int,
                             id: int, content: string)
    requires PostsValid(posts, nextPostId) && RepliesValid(replies, nextReplyId, posts)
    requires Utf16Length(content) <= ContentWidth
    ensures PostsValid(PostsWithContent(posts, id, content), nextPostId)
    ensures RepliesValid(replies, nextReplyId, PostsWithContent(posts, id, content))
  {
    var r := PostsWithContent(posts, id, content);
    assert forall k :: 0 <= k < |posts| ==> r[k].id == posts[k].id;
    SameIdsKeepPostKeys(posts, r, nextPostId);
    forall x | x in replies ensures PostExists(r, x.postID) {
      var p :| p in posts && p.id == x.postID;
      var k :| 0 <= k < |posts| && posts[k] == p;
      assert r[k] in r;
    }
  }

  lemma UpdateReplyKeepsValid(replies: seq<ReplyRow>, nextReplyId: int, posts: seq<PostRow>, id: int, content: string)
    requires RepliesValid(replies, nextReplyId, posts)
    requires Utf16Length(content) <= ContentWidth
    ensures RepliesValid(RepliesWithContent(replies, id, content), nextReplyId, posts)
  {
    var r := RepliesWithContent(replies, id, content);
    assert forall k :: 0 <= k < |replies| ==> r[k].id == replies[k].id && r[k].postID == replies[k].postID;
    SameIdsKeepReplyKeys(replies, r, nextReplyId);
    forall x | x in r ensures PostExists(posts, x.postID) {
      var k :| 0 <= k < |r| && r[k] == x;
      assert replies[k] in replies;
    }
  }

  lemma SetFieldKeepsValid(users: seq<User>, name: string, f: Field, v: string)
    requires UsersValid(users) && Utf16Length(v) <= NameWidth
    ensures UsersValid(SetUserField(users, name, f, v))
  {
    SetUserFieldKeepsNames(users, name, f, v);
    var r := SetUserField(users, name, f, v);
    forall u | u in r ensures FitsUserTable(u) {
      var k :| 0 <= k < |r| && r[k] == u;
      assert users[k] in users;
    }
  }

  lemma SetRoleKeepsValid(users: seq<User>, name: string, role: Role, value: bool)
    requires UsersValid(users)
    ensures UsersValid(SetUserRole(users, name, role, value))
  {
    SetUserRoleKeepsNames(users, name, role, value);
    var r := SetUserRole(users, name, role, value);
    forall u | u in r ensures FitsUserTable(u) {
      var k :| 0 <= k < |r| && r[k] == u;
      assert users[k] in users;
    }
  }

  class Database {
    var users: seq<User>
    var invitations: map<string, Invitation>
    var posts: seq<PostRow>
    var replies: seq<ReplyRow>
    /** The next value of the AUTO_INCREMENT identity of Post and of Reply. */
    var nextPostId: int
    var nextReplyId: int
    /** currentUsername ... currentNewRole2, as one record. */
    var current: User

    ghost predicate Valid()
      reads this
    {
      UsersValid(users) && InvitationsValid(invitations) && PostsValid(posts, nextPostId)
      && RepliesValid(replies, nextReplyId, posts)
    }

    /** A freshly created database: the tables exist and are empty. */
    constructor ()
      ensures Valid()
      ensures users == [] && invitations == map[] && posts == [] && replies == []
      ensures nextPostId == 1 && nextReplyId == 1 && current == NoUser
    {
      users, invitations, posts, replies := [], map[], [], [];
      nextPostId, nextReplyId := 1, 1;
      current := NoUser;
    }

    // ===================================================================
    // Posts
    // ===================================================================

    /** Whether `INSERT INTO Post` succeeds: the values fit and the identity is not exhausted. */
    predicate PostInsertAccepted(author: string, content: string, authorRole: Option<string>)
      reads this
    {
      RowFits(author, content, authorRole) && nextPostId <= INT_MAX
    }

    /** createPost: the new post's id, or -1 when the insert fails. */
    method CreatePost(author: string, content: string, authorRole: Option<string>) returns (id: Int32)
      requires Valid()
      modifies this
      ensures Valid()
      ensures old(PostInsertAccepted(author, content, authorRole)) ==>
                id == old(nextPostId) && posts == old(posts) + [PostRow(id, author, content, authorRole)]
                && nextPostId == old(nextPostId) + 1
      ensures !old(PostInsertAccepted(author, content, authorRole)) ==>
                id == -1 && posts == old(posts) && nextPostId == old(nextPostId)
      ensures id != -1 ==> !PostExists(old(posts), id)
      ensures users == old(users) && invitations == old(invitations) && replies == old(replies)
      ensures nextReplyId == old(nextReplyId) && current == old(current)
    {
      if !PostInsertAccepted(author, content, authorRole) {
        return -1;
      }
      id := nextPostId as Int32;
      var row := PostRow(id, author, content, authorRole);
      AppendKeepsPostKeys(posts, nextPostId, row);
      posts := posts + [row];
      nextPostId := nextPostId + 1;
    }

    /** getPost: a new Post for the row with that id, or null. */
    method GetPost(postId: Int32) returns (p: Post?)
      ensures p == null <==> !PostExists(posts, postId)
      ensures p != null ==> ShowsPost(p, FindPost(posts, postId).value)
    {
      match FindPost(posts, postId)
      case None =>
        p := null;
      case Some(row) =>
        p := new Post(row.id, row.author, row.content, row.authorRole);
    }

    /** getAllPosts: every post, in table order. */
    method GetAllPosts() returns (list: seq<Post>)
      ensures |list| == |posts|
      ensures forall i :: 0 <= i < |posts| ==> ShowsPost(list[i], posts[i])
    {
      list := PostObjects(posts);
    }

    /**
     * updatePost: content over 500 characters makes the UPDATE fail (false,
     * nothing changed); otherwise the result says whether a row had that id.
     */
    method UpdatePost(postId: Int32, content: string) returns (updated: bool)
      requires Valid()
      modifies this
      ensures Valid()
      ensures Utf16Length(content) > ContentWidth ==> !updated && posts == old(posts)
      ensures Utf16Length(content) <= ContentWidth ==>
                posts == PostsWithContent(old(posts), postId, content) && (updated <==> PostExists(old(posts), postId))
      ensures users == old(users) && invitations == old(invitations) && replies == old(replies)
      ensures nextPostId == old(nextPostId) && nextReplyId == old(nextReplyId) && current == old(current)
    {
      if Utf16Length(content) > ContentWidth {
        return false;
      }
      updated := PostExists(posts, postId);
      UpdatePostKeepsValid(posts, nextPostId, replies, nextReplyId, postId, content);
      posts := PostsWithContent(posts, postId, content);
    }

    /** deletePost: first the post's replies, then the post; true when the post existed. */
    method DeletePost(postId: Int32) returns (deleted: bool)
      requires Valid()
      modifies this
      ensures Valid()
      ensures deleted <==> PostExists(old(posts), postId)
      ensures replies == RepliesNotOf(old(replies), postId)
      ensures posts == PostsWithout(old(posts), postId)
      ensures !PostExists(posts, postId) && RepliesOf(replies, postId) == []
      ensures users == old(users) && invitations == old(invitations)
      ensures nextPostId == old(nextPostId) && nextReplyId == old(nextReplyId) && current == old(current)
    {
      DeleteKeepsValid(posts, nextPostId, replies, nextReplyId, postId);
      replies := RepliesNotOf(replies, postId);
      deleted := PostExists(posts, postId);
      posts := PostsWithout(posts, postId);
    }

    // ===================================================================
    // Replies
    // ===================================================================

    /** Whether `INSERT INTO Reply` succeeds: the values fit, the post exists and the identity is not exhausted. */
    predicate ReplyInsertAccepted(postId: Int32, author: string, content: string, authorRole: Option<string>)
      reads this
    {
      RowFits(author, content, authorRole) && PostExists(posts, postId) && nextReplyId <= INT_MAX
    }

    /** createReply: the new reply's id, or -1 when the insert fails. */
    method CreateReply(postId: Int32, author: string, content: string, authorRole: Option<string>) returns (id: Int32)
      requires Valid()
      modifies this
      ensures Valid()
      ensures old(ReplyInsertAccepted(postId, author, content, authorRole)) ==>
                id == old(nextReplyId) && replies == old(replies) + [ReplyRow(id, postId, author, content, authorRole)]
                && nextReplyId == old(nextReplyId) + 1
      ensures !old(ReplyInsertAccepted(postId, author, content, authorRole)) ==>
                id == -1 && replies == old(replies) && nextReplyId == old(nextReplyId)
      ensures id != -1 ==> !ReplyExists(old(replies), id)
      ensures users == old(users) && invitations == old(invitations) && posts == old(posts)
      ensures nextPostId == old(nextPostId) && current == old(current)
    {
      if !ReplyInsertAccepted(postId, author, content, authorRole) {
        return -1;
      }
      id := nextReplyId as Int32;
      var row := ReplyRow(id, postId, author, content, authorRole);
      AppendKeepsReplyKeys(replies, nextReplyId, row);
      replies := replies + [row];
      nextReplyId := nextReplyId + 1;
    }

    method GetReply(replyId: Int32) returns (r: Reply?)
      ensures r == null <==> !ReplyExists(replies, replyId)
      ensures r != null ==> ShowsReply(r, FindReply(replies, replyId).value)
    {
      match FindReply(replies, replyId)
      case None =>
        r := null;
      case Some(row) =>
        r := new Reply(row.id, row.postID, row.author, row.content, row.authorRole);
    }

    /** getRepliesByPost: the replies of one post, in table order. */
    method GetRepliesByPost(postId: Int32) returns (list: seq<Reply>)
      ensures |list| == |RepliesOf(replies, postId)|
      ensures forall i :: 0 <= i < |list| ==> ShowsReply(list[i], RepliesOf(replies, postId)[i])
      ensures forall i :: 0 <= i < |list| ==> list[i].GetPostID() == postId
    {
      list := ReplyObjects(RepliesOf(replies, postId));
      forall i | 0 <= i < |list| ensures list[i].GetPostID() == postId {
        assert RepliesOf(replies, postId)[i] in RepliesOf(replies, postId);
      }
    }

    method GetAllReplies() returns (list: seq<Reply>)
      ensures |list| == |replies|
      ensures forall i :: 0 <= i < |replies| ==> ShowsReply(list[i], replies[i])
    {
      list := ReplyObjects(replies);
    }

    method UpdateReply(replyId: Int32, content: string) returns (updated: bool)
      requires Valid()
      modifies this
      ensures Valid()
      ensures Utf16Length(content) > ContentWidth ==> !updated && replies == old(replies)
      ensures Utf16Length(content) <= ContentWidth ==>
                replies == RepliesWithContent(old(replies), replyId, content) && (updated <==> ReplyExists(old(replies), replyId))
      ensures users == old(users) && invitations == old(invitations) && posts == old(posts)
      ensures nextPostId == old(nextPostId) && nextReplyId == old(nextReplyId) && current == old(current)
    {
      if Utf16Length(content) > ContentWidth {
        return false;
      }
      updated := ReplyExists(replies, replyId);
      UpdateReplyKeepsValid(replies, nextReplyId, posts, replyId, content);
      replies := RepliesWithContent(replies, replyId, content);
    }

    method DeleteReply(replyId: Int32) returns (deleted: bool)
      requires Valid()
      modifies this
      ensures Valid()
      ensures deleted <==> ReplyExists(old(replies), replyId)
      ensures replies == RepliesWithout(old(replies), replyId)
      ensures !ReplyExists(replies, replyId)
      ensures users == old(users) && invitations == old(invitations) && posts == old(posts)
      ensures nextPostId == old(nextPostId) && nextReplyId == old(nextReplyId) && current == old(current)
    {
      FilterKeepsReplyKeys(replies, nextReplyId, (x: ReplyRow) => x.id != replyId);
      deleted := ReplyExists(replies, replyId);
      replies := RepliesWithout(replies, replyId);
    }

    // ===================================================================
    // Users
    // ===================================================================

    /** isDatabaseEmpty: true exactly when no user name is registered. */
    function IsDatabaseEmpty(): (empty: bool)
      reads this
      ensures empty <==> forall name :: !DoesUserExist(name)
    {
      if |users| == 0 then true
      else
        assert DoesUserExist(users[0].userName);
        false
    }

    /** getNumberOfUsers: the row count, which under the UNIQUE constraint is the number of distinct user names. */
    function GetNumberOfUsers(): (n: nat)
      reads this
      ensures n == 0 <==> IsDatabaseEmpty()
      ensures UniqueNames(users) ==> n == |NameSet(users)|
    {
      if UniqueNames(users) then
        NameSetSize(users);
        |users|
      else |users|
    }

    /**
     * register: the current-user fields take the new user's values first;
     * then the INSERT either adds the row or throws (a user name already
     * taken, a value too long), which `inserted` reports.
     */
    method Register(user: User) returns (inserted: bool)
      requires Valid()
      modifies this
      ensures Valid()
      ensures current == user
      ensures inserted <==> !NameTaken(old(users), user.userName) && FitsUserTable(user)
      ensures inserted ==> users == old(users) + [user] && GetNumberOfUsers() == old(GetNumberOfUsers()) + 1
      ensures !inserted ==> users == old(users)
      ensures inserted ==> forall role :: CanLogin(users, user, role) <==> HasRole(user, role)
      ensures invitations == old(invitations) && posts == old(posts) && replies == old(replies)
      ensures nextPostId == old(nextPostId) && nextReplyId == old(nextReplyId)
    {
      current := user;
      inserted := !NameTaken(users, user.userName) && FitsUserTable(user);
      if inserted {
        forall role ensures CanLogin(users + [user], user, role) <==> HasRole(user, role) {
          LoginAfterRegister(users, user, role);
        }
        users := users + [user];
      }
    }

    /** getUserList: "<Select a User>" followed by every user name. */
    method GetUserList() returns (list: seq<string>)
      ensures list == [SelectUser] + UserNames(users)
    {
      list := [SelectUser];
      for i := 0 to |users|
        invariant |list| == i + 1 && list[0] == SelectUser
        invariant forall k :: 0 <= k < i ==> list[k + 1] == users[k].userName
      {
        list := list + [users[i].userName];
      }
    }

    /**
     * loginAdmin: some row has the user name, the password and the admin
     * flag. Only a registered name can log in; with unique names, it is the
     * row of that name whose password and flag decide.
     */
    function LoginAdmin(user: User): (ok: bool)
      reads this
      ensures ok ==> DoesUserExist(user.userName)
      ensures UniqueNames(users) ==>
                (ok <==> DoesUserExist(user.userName) && FindUser(users, user.userName).value.password == user.password
                         && FindUser(users, user.userName).value.adminRole)
    {
      if UniqueNames(users) then
        LoginByName(users, user, Admin);
        CanLogin(users, user, Admin)
      else CanLogin(users, user, Admin)
    }

    /** loginRole1: the same query on the newRole1 flag. */
    function LoginRole1(user: User): (ok: bool)
      reads this
      ensures ok ==> DoesUserExist(user.userName)
      ensures UniqueNames(users) ==>
                (ok <==> DoesUserExist(user.userName) && FindUser(users, user.userName).value.password == user.password
                         && FindUser(users, user.userName).value.newRole1)
    {
      if UniqueNames(users) then
        LoginByName(users, user, Role1);
        CanLogin(users, user, Role1)
      else CanLogin(users, user, Role1)
    }

    /** loginRole2: the same query on the newRole2 flag. */
    function LoginRole2(user: User): (ok: bool)
      reads this
      ensures ok ==> DoesUserExist(user.userName)
      ensures UniqueNames(users) ==>
                (ok <==> DoesUserExist(user.userName) && FindUser(users, user.userName).value.password == user.password
                         && FindUser(users, user.userName).value.newRole2)
    {
      if UniqueNames(users) then
        LoginByName(users, user, Role2);
        CanLogin(users, user, Role2)
      else CanLogin(users, user, Role2)
    }

    /** doesUserExist: whether the SELECT by user name finds a row. */
    function DoesUserExist(userName: string): (found: bool)
      reads this
      ensures found <==> FindUser(users, userName).Some?
      ensures found <==> userName in NameSet(users)
    {
      NameTaken(users, userName)
    }

    // ===================================================================
    // Invitation codes
    // ===================================================================

    /**
     * generateInvitationCode: `code` is the six characters taken from a
     * random UUID. The INSERT fails (and is ignored) when the code is
     * already in the table or a value is too long; the code is returned
     * either way.
     */
    method GenerateInvitationCode(emailAddress: string, role: string, code: string) returns (r: string)
      requires Valid() && |code| == 6
      modifies this
      ensures Valid()
      ensures r == code
      ensures old(InvitationFits(invitations, code, emailAddress, role)) ==>
                invitations == old(invitations)[code := Invitation(emailAddress, role)]
                && GetRoleGivenAnInvitationCode(code) == role && GetEmailAddressUsingCode(code) == emailAddress
                && EmailaddressHasBeenUsed(emailAddress)
      ensures old(InvitationFits(invitations, code, emailAddress, role)) ==>
                GetNumberOfInvitations() == old(GetNumberOfInvitations()) + 1
      ensures !old(InvitationFits(invitations, code, emailAddress, role)) ==> invitations == old(invitations)
      ensures users == old(users) && posts == old(posts) && replies == old(replies)
      ensures nextPostId == old(nextPostId) && nextReplyId == old(nextReplyId) && current == old(current)
    {
      r := code;
      if InvitationFits(invitations, code, emailAddress, role) {
        invitations := invitations[code := Invitation(emailAddress, role)];
      }
    }

    /** getNumberOfInvitations: the row count of InvitationCodes, zero exactly when no code is stored. */
    function GetNumberOfInvitations(): (n: nat)
      reads this
      ensures n == |invitations.Keys|
      ensures n == 0 <==> forall c :: c !in invitations
    {
      |invitations|
    }

    /** emailaddressHasBeenUsed: some stored code was issued for that address. */
    function EmailaddressHasBeenUsed(emailAddress: string): (used: bool)
      reads this
      ensures used <==> exists c :: c in invitations && GetEmailAddressUsingCode(c) == emailAddress
    {
      exists c :: c in invitations && invitations[c].emailAddress == emailAddress
    }

    /** getRoleGivenAnInvitationCode: the role stored for the code, or "" when there is no such code. */
    function GetRoleGivenAnInvitationCode(code: string): (role: string)
      reads this
      ensures code !in invitations ==> role == ""
      ensures code in invitations ==> role == invitations[code].role
    {
      if code in invitations then invitations[code].role else ""
    }

    /** getEmailAddressUsingCode: the address stored for the code, or "" when there is no such code. */
    function GetEmailAddressUsingCode(code: string): (emailAddress: string)
      reads this
      ensures code !in invitations ==> emailAddress == ""
      ensures code in invitations ==> emailAddress == invitations[code].emailAddress
    {
      if code in invitations then invitations[code].emailAddress else ""
    }

    /** removeInvitationAfterUse: the code's row is deleted when there is one. */
    method RemoveInvitationAfterUse(code: string)
      requires Valid()
      modifies this
      ensures Valid()
      ensures invitations == old(invitations) - {code}
      ensures old(code !in invitations) ==> invitations == old(invitations)
      ensures GetRoleGivenAnInvitationCode(code) == "" && GetEmailAddressUsingCode(code) == ""
      ensures old(code in invitations) ==> GetNumberOfInvitations() == old(GetNumberOfInvitations()) - 1
      ensures users == old(users) && posts == old(posts) && replies == old(replies)
      ensures nextPostId == old(nextPostId) && nextReplyId == old(nextReplyId) && current == old(current)
    {
      if code in invitations {
        invitations := invitations - {code};
      }
    }

    // ===================================================================
    // Name and address columns
    // ===================================================================

    /** getFirstName, getMiddleName, getLastName, getPreferredFirstName, getEmailAddress as written. */
    function GetColumn(userName: string, f: Field): (r: Option<string>)
      reads this
      ensures f != PreferredFirstName ==> r == ColumnOf(users, userName, f)
      ensures r.Some? ==> DoesUserExist(userName) && f != PreferredFirstName
      ensures UniqueNames(users) && r.Some? ==> r.value == FieldOf(FindUser(users, userName).value, f)
    {
      SelectColumn(users, userName, f)
    }

    /** What getPreferredFirstName evidently means to return: the stored column. */
    function GetPreferredFirstName(userName: string): (r: Option<string>)
      reads this
      ensures r.Some? <==> DoesUserExist(userName)
    {
      ColumnOf(users, userName, PreferredFirstName)
    }

    /**
     * updateFirstName ... updateEmailAddress. H2 checks the width of the
     * value only on a row it writes, so the UPDATE throws (and nothing
     * changes) exactly when some row has that name and the value is over
     * 255 units. Otherwise the rows with that name are updated and the
     * current-user field is set, even when no row matched.
     */
    method UpdateColumn(userName: string, f: Field, v: string)
      requires Valid()
      modifies this
      ensures Valid()
      ensures old(NameTaken(users, userName)) && Utf16Length(v) > NameWidth ==>
                users == old(users) && current == old(current)
      ensures !old(NameTaken(users, userName)) || Utf16Length(v) <= NameWidth ==>
                users == SetUserField(old(users), userName, f, v) && current == WithField(old(current), f, v)
      ensures !old(NameTaken(users, userName)) ==> users == old(users)
      ensures invitations == old(invitations) && posts == old(posts) && replies == old(replies)
      ensures nextPostId == old(nextPostId) && nextReplyId == old(nextReplyId)
    {
      if NameTaken(users, userName) && Utf16Length(v) > NameWidth {
        return;
      }
      if NameTaken(users, userName) {
        SetFieldKeepsValid(users, userName, f, v);
      } else {
        SetUserFieldMissing(users, userName, f, v);
      }
      users := SetUserField(users, userName, f, v);
      current := WithField(current, f, v);
    }

    /** getUserAccountDetails: the current-user fields take the row's values; false when there is no row. */
    method GetUserAccountDetails(userName: string) returns (found: bool)
      requires Valid()
      modifies this
      ensures Valid()
      ensures found <==> old(DoesUserExist(userName))
      ensures found ==> current in users && current.userName == userName
      ensures !found ==> current == old(current)
      ensures users == old(users) && invitations == old(invitations) && posts == old(posts) && replies == old(replies)
      ensures nextPostId == old(nextPostId) && nextReplyId == old(nextReplyId)
    {
      match FindUser(users, userName)
      case None =>
        found := false;
      case Some(u) =>
        current := u;
        found := true;
    }

    /**
     * updateUserRole. `stored` is what H2 makes of `value` when it converts
     * the text to the BOOL column (None: the conversion throws). For a
     * name with no row H2 converts nothing and the Java returns true for
     * any `value`; a caller models that by passing Some. The current-user
     * flag, in contrast, is set by comparing `value` with "true".
     */
    method UpdateUserRole(userName: string, role: string, value: string, stored: Option<bool>) returns (ok: bool)
      requires Valid()
      requires value == "true" ==> stored == Some(true)
      requires value == "false" ==> stored == Some(false)
      modifies this
      ensures Valid()
      ensures ok <==> RoleNamed(role).Some? && stored.Some?
      ensures ok ==> users == SetUserRole(old(users), userName, RoleNamed(role).value, stored.value)
                     && current == WithRole(old(current), RoleNamed(role).value, value == "true")
      ensures !ok ==> users == old(users) && current == old(current)
      ensures invitations == old(invitations) && posts == old(posts) && replies == old(replies)
      ensures nextPostId == old(nextPostId) && nextReplyId == old(nextReplyId)
    {
      match RoleNamed(role)
      case None =>
        ok := false;
      case Some(r) =>
        if stored.None? {
          return false;
        }
        SetRoleKeepsValid(users, userName, r, stored.value);
        users := SetUserRole(users, userName, r, stored.value);
        current := WithRole(current, r, value == "true");
        ok := true;
    }
  }
}
