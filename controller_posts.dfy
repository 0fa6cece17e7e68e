/**
 * The actions of the student discussion-board view. A student may delete
 * or edit only their own posts and replies; a post is tagged with the
 * first role the user has, Admin before Role1 before Role2, a reply with
 * Role1 before Role2 only. The selected list line and the text the edit
 * dialog returns (None for Cancel) are parameters; an action whose Java
 * would throw (getID of a line without an id, a null post) demands in its
 * `requires` that this cannot happen.
 */
module ControllerPosts {
  import opened Wrappers
  import opened JavaStrings
  import opened EntityClasses
  import opened DatabaseTables
  import opened Database
  import opened PostsScreen
  import ModelPosts
  import ModelPostsAdmin

  /** The authorRole stored with a new post. */
  function PostRoleTag(u: User): (tag: string)
    ensures Utf16Length(tag) <= RoleWidth
    ensures tag == "Admin" <==> u.adminRole
    ensures tag == "Role1" <==> !u.adminRole && u.newRole1
    ensures tag == "Role2" <==> !u.adminRole && !u.newRole1 && u.newRole2
    ensures tag == "Unknown" <==> NumberOfRoles(u) == 0
  {
    if u.adminRole then "Admin"
    else if u.newRole1 then "Role1"
    else if u.newRole2 then "Role2"
    else "Unknown"
  }

  /** The authorRole stored with a new reply: the admin flag is not looked at. */
  function ReplyRoleTag(u: User): (tag: string)
    ensures Utf16Length(tag) <= RoleWidth
    ensures tag != "Admin"
    ensures tag == "Role1" <==> u.newRole1
    ensures tag == "Role2" <==> !u.newRole1 && u.newRole2
    ensures tag == "Unknown" <==> !u.newRole1 && !u.newRole2
  {
    if u.newRole1 then "Role1"
    else if u.newRole2 then "Role2"
    else "Unknown"
  }

  /** performBack: the first role the user has decides the home page. */
  function HomeFor(u: User): (home: Home)
    ensures home == AdminHome <==> u.adminRole
    ensures home == Role1Home <==> !u.adminRole && u.newRole1
    ensures home == Role2Home ==> !u.adminRole && !u.newRole1
  {
    if u.adminRole then AdminHome
    else if u.newRole1 then Role1Home
    else Role2Home
  }

  /** performViewPosts: the posts list is rebuilt from getAllPosts, one formatted line per post. */
  method PerformViewPosts(s: Screen)
    modifies s
    ensures PostsRefreshed(s)
  {
    RefreshPosts(s);
  }

  /** performCreatePost: an empty text area on the create-post panel. */
  method PerformCreatePost(s: Screen)
    modifies s
    ensures s.postContent == "" && s.panel == CreatePostPanel
    ensures s.user == old(s.user) && s.currentPostID == old(s.currentPostID)
    ensures s.postItems == old(s.postItems) && s.replyItems == old(s.replyItems)
    ensures s.replyContent == old(s.replyContent) && s.postInReply == old(s.postInReply)
  {
    s.postContent := "";
    s.panel := CreatePostPanel;
  }

  /**
   * performDeletePost: with a line selected, the post is deleted (its
   * replies first) when the user wrote it and left alone otherwise; then
   * the list is refreshed. Only the user's own post can disappear.
   */
  method PerformDeletePost(s: Screen, selected: Option<string>)
    requires s.db.Valid()
    requires selected.Some? ==> PostSelectable(s.db, selected.value)
    modifies s, s.db
    ensures s.db.Valid()
    ensures selected.None? ==> unchanged(s, s.db)
    ensures selected.Some? ==> PostDeleted(s, ModelPosts.GetID(selected.value))
    ensures forall p :: p in old(s.db.posts) && p !in s.db.posts ==> p.author == s.user.userName
    ensures AccountsKept(s.db)
  {
    if selected.None? {
      return;
    }
    var id := ModelPosts.GetID(selected.value);
    DeleteOwnPost(s, id);
  }

  /**
   * The outcome of deleting post `id` as the screen's user: when the user
   * wrote it, the post and its replies are gone and the list is refreshed;
   * otherwise nothing changed.
   */
  twostate predicate PostDeleted(s: Screen, id: Int32)
    reads s, s.db
  {
    if FindPost(old(s.db.posts), id).Some? && FindPost(old(s.db.posts), id).value.author == s.user.userName then
      s.db.posts == PostsWithout(old(s.db.posts), id)
      && s.db.replies == RepliesNotOf(old(s.db.replies), id)
      && PostsRefreshed(s)
    else unchanged(s, s.db)
  }

  /** The part of performDeletePost after getID: getPost, the ownership check, deletePost and the refresh. */
  method DeleteOwnPost(s: Screen, id: Int32)
    requires s.db.Valid() && PostExists(s.db.posts, id)
    modifies s, s.db
    ensures s.db.Valid()
    ensures PostDeleted(s, id)
    ensures forall p :: p in old(s.db.posts) && p !in s.db.posts ==> p.author == s.user.userName
    ensures AccountsKept(s.db)
  {
    var post := s.db.GetPost(id);
    if post.GetAuthor() != s.user.userName {
      return;
    }
    DeleteTouchesOnlyAuthor(s.db.posts, s.db.nextPostId, id, s.user.userName);
    var _ := s.db.DeletePost(id);
    PerformViewPosts(s);
  }

  /**
   * performEditPost: with a non-blank line selected and the user its
   * author, a dialog asks for the new content; its trimmed text, when not
   * empty, goes to updatePost (which refuses more than 500 characters) and
   * the list is refreshed.
   */
  method PerformEditPost(s: Screen, selected: Option<string>, dialog: Option<string>)
    requires s.db.Valid()
    requires !Blank(selected) ==> PostSelectable(s.db, selected.value)
    modifies s, s.db
    ensures s.db.Valid()
    ensures Blank(selected) ==> unchanged(s, s.db)
    ensures !Blank(selected) ==> PostEdited(s, ModelPosts.GetID(selected.value), Trimmed(dialog))
    ensures |s.db.posts| == |old(s.db.posts)|
    ensures forall i :: 0 <= i < |s.db.posts| && s.db.posts[i] != old(s.db.posts)[i] ==>
              old(s.db.posts)[i].author == s.user.userName
    ensures AccountsKept(s.db)
  {
    if Blank(selected) {
      return;
    }
    var id := ModelPosts.GetID(selected.value);
    EditOwnPost(s, id, Trimmed(dialog));
  }

  /**
   * The outcome of editing post `id` as the screen's user with the trimmed
   * text of the dialog: nothing changes unless the user wrote the post and
   * the text is not empty; then the post holds that text, unless it is
   * longer than the column, and the list is refreshed.
   */
  twostate predicate PostEdited(s: Screen, id: Int32, text: Option<string>)
    reads s, s.db
  {
    if FindPost(old(s.db.posts), id).None? || FindPost(old(s.db.posts), id).value.author != s.user.userName
       || text.None? || |text.value| == 0 then
      unchanged(s, s.db)
    else
      s.db.posts == (if Utf16Length(text.value) <= ContentWidth
                       then PostsWithContent(old(s.db.posts), id, text.value)
                     else old(s.db.posts))
      && s.db.replies == old(s.db.replies) && PostsRefreshed(s)
  }

  /** The part of performEditPost after getID: getPost and the ownership check. */
  method EditOwnPost(s: Screen, id: Int32, text: Option<string>)
    requires s.db.Valid() && PostExists(s.db.posts, id)
    modifies s, s.db
    ensures s.db.Valid()
    ensures PostEdited(s, id, text)
    ensures |s.db.posts| == |old(s.db.posts)|
    ensures forall i :: 0 <= i < |s.db.posts| && s.db.posts[i] != old(s.db.posts)[i] ==>
              old(s.db.posts)[i].author == s.user.userName
    ensures AccountsKept(s.db)
  {
    var post := s.db.GetPost(id);
    if post.GetAuthor() != s.user.userName {
      return;
    }
    ApplyPostEdit(s, id, text);
  }

  /** The rest of performEditPost, once the user is known to be the author: the dialog's text goes to updatePost. */
  method ApplyPostEdit(s: Screen, id: Int32, text: Option<string>)
    requires s.db.Valid() && PostExists(s.db.posts, id) && FindPost(s.db.posts, id).value.author == s.user.userName
    modifies s, s.db
    ensures s.db.Valid()
    ensures PostEdited(s, id, text)
    ensures |s.db.posts| == |old(s.db.posts)|
    ensures forall i :: 0 <= i < |s.db.posts| && s.db.posts[i] != old(s.db.posts)[i] ==>
              old(s.db.posts)[i].author == s.user.userName
    ensures AccountsKept(s.db)
  {
    if text.Some? {
      var newText := text.value;
      if |newText| == 0 {
        return;
      }
      UpdateOwnPost(s.db, id, newText, s.user.userName);
      PerformViewPosts(s);
    }
  }

  /** updatePost called on a post `author` wrote: only rows of that author can change. */
  method UpdateOwnPost(db: Database, id: Int32, newText: string, author: string)
    requires db.Valid() && PostExists(db.posts, id) && FindPost(db.posts, id).value.author == author
    modifies db
    ensures db.Valid()
    ensures db.posts == if Utf16Length(newText) <= ContentWidth then PostsWithContent(old(db.posts), id, newText)
                          else old(db.posts)
    ensures |db.posts| == |old(db.posts)|
    ensures forall i :: 0 <= i < |db.posts| && db.posts[i] != old(db.posts)[i] ==> old(db.posts)[i].author == author
    ensures db.replies == old(db.replies) && AccountsKept(db)
  {
    EditTouchesOnlyAuthor(db.posts, db.nextPostId, id, newText, author);
    var _ := db.UpdatePost(id, newText);
  }

  /**
   * performSubmitPost: text that is not empty (it is not trimmed) goes to
   * createPost under the user's name and role tag; then the list is
   * refreshed.
   */
  method PerformSubmitPost(s: Screen)
    requires s.db.Valid()
    modifies s, s.db
    ensures s.db.Valid()
    ensures |old(s.postContent)| == 0 ==> unchanged(s, s.db)
    ensures |old(s.postContent)| > 0 ==>
              (old(s.db.PostInsertAccepted(s.user.userName, s.postContent, Some(PostRoleTag(s.user)))) ==>
                 s.db.posts == old(s.db.posts)
                               + [PostRow(old(s.db.nextPostId) as Int32, s.user.userName, s.postContent, Some(PostRoleTag(s.user)))])
              && (!old(s.db.PostInsertAccepted(s.user.userName, s.postContent, Some(PostRoleTag(s.user)))) ==>
                 s.db.posts == old(s.db.posts))
              && s.db.replies == old(s.db.replies) && PostsRefreshed(s)
    ensures AccountsKept(s.db)
  {
    var a := s.user.userName;
    var c := s.postContent;
    var role := Some(PostRoleTag(s.user));
    if |c| == 0 {
      return;
    }
    var _ := s.db.CreatePost(a, c, role);
    PerformViewPosts(s);
  }

  /** performCancel and performBackToPosts: back to the posts panel. */
  method PerformCancel(s: Screen)
    modifies s
    ensures s.panel == PostsPanel
    ensures s.user == old(s.user) && s.currentPostID == old(s.currentPostID)
    ensures s.postItems == old(s.postItems) && s.replyItems == old(s.replyItems)
    ensures s.postContent == old(s.postContent) && s.replyContent == old(s.replyContent)
    ensures s.postInReply == old(s.postInReply)
  {
    s.panel := PostsPanel;
  }

  /** performCreateReply: an empty text area on the create-reply panel. */
  method PerformCreateReply(s: Screen)
    modifies s
    ensures s.replyContent == "" && s.panel == CreateReplyPanel
    ensures s.user == old(s.user) && s.currentPostID == old(s.currentPostID)
    ensures s.postItems == old(s.postItems) && s.replyItems == old(s.replyItems)
    ensures s.postContent == old(s.postContent) && s.postInReply == old(s.postInReply)
  {
    s.replyContent := "";
    s.panel := CreateReplyPanel;
  }

  /**
   * performViewReplies: for a non-blank selection, the post's content,
   * the lines of its replies and its id are shown on the replies panel.
   */
  method PerformViewReplies(s: Screen, selected: Option<string>)
    requires !Blank(selected) ==> PostSelectable(s.db, selected.value)
    modifies s
    ensures RepliesRefreshed(s, Chosen(selected))
  {
    ViewRepliesOf(s, Chosen(selected));
  }

  /**
   * performDeleteReply: a non-blank reply line is deleted when the user
   * wrote it, and the replies of the post chosen on the posts list are
   * shown again; otherwise nothing changes.
   */
  method PerformDeleteReply(s: Screen, selectedReply: Option<string>, selectedPost: Option<string>)
    requires s.db.Valid()
    requires !Blank(selectedReply) ==> ReplySelectable(s.db, selectedReply.value)
    requires !Blank(selectedPost) ==> PostSelectable(s.db, selectedPost.value)
    modifies s, s.db
    ensures s.db.Valid()
    ensures Blank(selectedReply) ==> unchanged(s, s.db)
    ensures !Blank(selectedReply) ==> ReplyDeleted(s, ModelPosts.GetID(selectedReply.value), Chosen(selectedPost))
    ensures forall r :: r in old(s.db.replies) && r !in s.db.replies ==> r.author == s.user.userName
    ensures s.db.posts == old(s.db.posts) && AccountsKept(s.db)
  {
    if Blank(selectedReply) {
      return;
    }
    var id := ModelPosts.GetID(selectedReply.value);
    DeleteOwnReply(s, id, Chosen(selectedPost));
  }

  /**
   * The outcome of deleting reply `id` as the screen's user: when the user
   * wrote it, it is gone and the replies of the chosen post are shown;
   * otherwise nothing changed.
   */
  twostate predicate ReplyDeleted(s: Screen, id: Int32, chosen: Option<Int32>)
    reads s, s.db
  {
    if FindReply(old(s.db.replies), id).Some? && FindReply(old(s.db.replies), id).value.author == s.user.userName then
      s.db.replies == RepliesWithout(old(s.db.replies), id) && RepliesRefreshed(s, chosen)
    else unchanged(s, s.db)
  }

  /** The part of performDeleteReply after getID: getReply, the ownership check, deleteReply and the refresh. */
  method DeleteOwnReply(s: Screen, id: Int32, chosen: Option<Int32>)
    requires s.db.Valid() && ReplyExists(s.db.replies, id)
    requires chosen.Some? ==> PostExists(s.db.posts, chosen.value)
    modifies s, s.db
    ensures s.db.Valid()
    ensures ReplyDeleted(s, id, chosen)
    ensures forall r :: r in old(s.db.replies) && r !in s.db.replies ==> r.author == s.user.userName
    ensures s.db.posts == old(s.db.posts) && AccountsKept(s.db)
  {
    var reply := s.db.GetReply(id);
    if reply.GetAuthor() != s.user.userName {
      return;
    }
    DeleteReplyTouchesOnlyAuthor(s.db.replies, s.db.nextReplyId, id, s.user.userName);
    var _ := s.db.DeleteReply(id);
    ViewRepliesOf(s, chosen);
  }

  /**
   * performEditReply: like performEditPost, for the user's own reply; the
   * replies of the post chosen on the posts list are shown again after the
   * update.
   */
  method PerformEditReply(s: Screen, selectedReply: Option<string>, dialog: Option<string>,
                          selectedPost: Option<string>)
    requires s.db.Valid()
    requires !Blank(selectedReply) ==> ReplySelectable(s.db, selectedReply.value)
    requires !Blank(selectedPost) ==> PostSelectable(s.db, selectedPost.value)
    modifies s, s.db
    ensures s.db.Valid()
    ensures Blank(selectedReply) ==> unchanged(s, s.db)
    ensures !Blank(selectedReply) ==>
              ReplyEdited(s, ModelPosts.GetID(selectedReply.value), Trimmed(dialog), Chosen(selectedPost))
    ensures |s.db.replies| == |old(s.db.replies)|
    ensures forall i :: 0 <= i < |s.db.replies| && s.db.replies[i] != old(s.db.replies)[i] ==>
              old(s.db.replies)[i].author == s.user.userName
    ensures s.db.posts == old(s.db.posts) && AccountsKept(s.db)
  {
    if Blank(selectedReply) {
      return;
    }
    var id := ModelPosts.GetID(selectedReply.value);
    EditOwnReply(s, id, Trimmed(dialog), Chosen(selectedPost));
  }

  /**
   * The outcome of editing reply `id` as the screen's user with the trimmed
   * text of the dialog: nothing changes unless the user wrote the reply and
   * the text is not empty; then the reply holds that text, unless it is
   * longer than the column, and the replies of the chosen post are shown.
   */
  twostate predicate ReplyEdited(s: Screen, id: Int32, text: Option<string>, chosen: Option<Int32>)
    reads s, s.db
  {
    if FindReply(old(s.db.replies), id).None? || FindReply(old(s.db.replies), id).value.author != s.user.userName
       || text.None? || |text.value| == 0 then
      unchanged(s, s.db)
    else
      s.db.replies == (if Utf16Length(text.value) <= ContentWidth
                       then RepliesWithContent(old(s.db.replies), id, text.value)
                       else old(s.db.replies))
      && RepliesRefreshed(s, chosen)
  }

  /** The part of performEditReply after getID: getReply and the ownership check. */
  method EditOwnReply(s: Screen, id: Int32, text: Option<string>, chosen: Option<Int32>)
    requires s.db.Valid() && ReplyExists(s.db.replies, id)
    requires chosen.Some? ==> PostExists(s.db.posts, chosen.value)
    modifies s, s.db
    ensures s.db.Valid()
    ensures ReplyEdited(s, id, text, chosen)
    ensures |s.db.replies| == |old(s.db.replies)|
    ensures forall i :: 0 <= i < |s.db.replies| && s.db.replies[i] != old(s.db.replies)[i] ==>
              old(s.db.replies)[i].author == s.user.userName
    ensures s.db.posts == old(s.db.posts) && AccountsKept(s.db)
  {
    var reply := s.db.GetReply(id);
    if reply.GetAuthor() != s.user.userName {
      return;
    }
    ApplyReplyEdit(s, id, text, chosen);
  }

  /** The rest of performEditReply, once the user is known to be the author. */
  method ApplyReplyEdit(s: Screen, id: Int32, text: Option<string>, chosen: Option<Int32>)
    requires s.db.Valid() && ReplyExists(s.db.replies, id)
    requires FindReply(s.db.replies, id).value.author == s.user.userName
    requires chosen.Some? ==> PostExists(s.db.posts, chosen.value)
    modifies s, s.db
    ensures s.db.Valid()
    ensures ReplyEdited(s, id, text, chosen)
    ensures |s.db.replies| == |old(s.db.replies)|
    ensures forall i :: 0 <= i < |s.db.replies| && s.db.replies[i] != old(s.db.replies)[i] ==>
              old(s.db.replies)[i].author == s.user.userName
    ensures s.db.posts == old(s.db.posts) && AccountsKept(s.db)
  {
    if text.Some? {
      var newText := text.value;
      if |newText| == 0 {
        return;
      }
      UpdateOwnReply(s.db, id, newText, s.user.userName);
      ViewRepliesOf(s, chosen);
    }
  }

  /** updateReply called on a reply `author` wrote: only rows of that author can change. */
  method UpdateOwnReply(db: Database, id: Int32, newText: string, author: string)
    requires db.Valid() && ReplyExists(db.replies, id) && FindReply(db.replies, id).value.author == author
    modifies db
    ensures db.Valid()
    ensures db.replies == if Utf16Length(newText) <= ContentWidth then RepliesWithContent(old(db.replies), id, newText)
                          else old(db.replies)
    ensures |db.replies| == |old(db.replies)|
    ensures forall i :: 0 <= i < |db.replies| && db.replies[i] != old(db.replies)[i] ==> old(db.replies)[i].author == author
    ensures db.posts == old(db.posts) && AccountsKept(db)
  {
    EditReplyTouchesOnlyAuthor(db.replies, db.nextReplyId, id, newText, author);
    var _ := db.UpdateReply(id, newText);
  }

  /**
   * performSubmitReply: text that is not empty goes to createReply for the
   * post whose replies were last opened (which fails when that post is
   * gone); then the replies of the post chosen on the posts list are shown
   * again.
   */
  method PerformSubmitReply(s: Screen, selectedPost: Option<string>)
    requires s.db.Valid()
    requires !Blank(selectedPost) ==> PostSelectable(s.db, selectedPost.value)
    modifies s, s.db
    ensures s.db.Valid()
    ensures |old(s.replyContent)| == 0 ==> unchanged(s, s.db)
    ensures |old(s.replyContent)| > 0 ==>
              var tag := Some(ReplyRoleTag(s.user));
              (old(s.db.ReplyInsertAccepted(s.currentPostID, s.user.userName, s.replyContent, tag)) ==>
                 s.db.replies == old(s.db.replies)
                                 + [ReplyRow(old(s.db.nextReplyId) as Int32, old(s.currentPostID), s.user.userName,
                                             s.replyContent, tag)])
              && (!old(s.db.ReplyInsertAccepted(s.currentPostID, s.user.userName, s.replyContent, tag)) ==>
                 s.db.replies == old(s.db.replies))
              && RepliesRefreshed(s, Chosen(selectedPost))
    ensures s.db.posts == old(s.db.posts) && AccountsKept(s.db)
  {
    var a := s.user.userName;
    var c := s.replyContent;
    var role := Some(ReplyRoleTag(s.user));
    if |c| == 0 {
      return;
    }
    var chosen := Chosen(selectedPost);
    var _ := s.db.CreateReply(s.currentPostID, a, c, role);
    ViewRepliesOf(s, chosen);
  }

  /** performReplyCancel: back to the replies of the post chosen on the posts list. */
  method PerformReplyCancel(s: Screen, selectedPost: Option<string>)
    requires !Blank(selectedPost) ==> PostSelectable(s.db, selectedPost.value)
    modifies s
    ensures RepliesRefreshed(s, Chosen(selectedPost))
  {
    ViewRepliesOf(s, Chosen(selectedPost));
  }
}
