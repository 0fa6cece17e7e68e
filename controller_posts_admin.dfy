/**
 * The actions of the admin discussion-board view. They are the student
 * actions without the ownership checks: an admin deletes and edits any post
 * or reply, and everything created here is tagged "Admin". The selected list
 * line and the text the edit dialog returns (None for Cancel) are
 * parameters; an action whose Java would throw (getID of a line without an
 * id, a null post) demands in its `requires` that this cannot happen.
 */
module ControllerPostsAdmin {
  import opened Wrappers
  import opened JavaStrings
  import opened DatabaseTables
  import opened Database
  import opened PostsScreen
  import ModelPostsAdmin

  /** The authorRole of every post and reply created from this view. */
  const AdminTag := "Admin"

  /** performBack: the admin view always leads back to the admin home page. */
  function PerformBack(u: User): (home: Home)
    ensures home == AdminHome
  {
    AdminHome
  }

  /** performViewPosts: the posts list is rebuilt from getAllPosts. */
  method PerformViewPosts(s: Screen)
    modifies s
    ensures PostsRefreshed(s)
  {
    RefreshPosts(s);
  }

  /** performCreatePost: an empty text area on the create-post panel. */
  method PerformCreatePost(s: Screen)
    modifies s
    ensures s.postContent == "" && s.panel == CreatePostPanel
    ensures s.user == old(s.user) && s.currentPostID == old(s.currentPostID)
    ensures s.postItems == old(s.postItems) && s.replyItems == old(s.replyItems)
    ensures s.replyContent == old(s.replyContent) && s.postInReply == old(s.postInReply)
  {
    s.postContent := "";
    s.panel := CreatePostPanel;
  }

  /**
   * performDeletePost: with a line selected, the post and its replies are
   * deleted whoever wrote them, and the list is refreshed.
   */
  method PerformDeletePost(s: Screen, selected: Option<string>)
    requires s.db.Valid()
    requires selected.Some? ==> ModelPostsAdmin.HasId(selected.value)
    modifies s, s.db
    ensures s.db.Valid()
    ensures selected.None? ==> unchanged(s, s.db)
    ensures selected.Some? ==> AnyPostDeleted(s, ModelPostsAdmin.GetID(selected.value))
    ensures AccountsKept(s.db)
  {
    if selected.None? {
      return;
    }
    var id := ModelPostsAdmin.GetID(selected.value);
    DeleteAnyPost(s, id);
  }

  /** The outcome of an admin's delete of post `id`: it and its replies are gone and the list is refreshed. */
  twostate predicate AnyPostDeleted(s: Screen, id: Int32)
    reads s, s.db
  {
    s.db.posts == PostsWithout(old(s.db.posts), id)
    && s.db.replies == RepliesNotOf(old(s.db.replies), id)
    && PostsRefreshed(s)
  }

  /** The part of performDeletePost after getID. */
  method DeleteAnyPost(s: Screen, id: Int32)
    requires s.db.Valid()
    modifies s, s.db
    ensures s.db.Valid()
    ensures AnyPostDeleted(s, id)
    ensures AccountsKept(s.db)
  {
    var _ := s.db.DeletePost(id);
    RefreshPosts(s);
  }

  /**
   * performEditPost: for a non-blank selection, the dialog's trimmed text,
   * when not empty, goes to updatePost whoever wrote the post, and the list
   * is refreshed.
   */
  method PerformEditPost(s: Screen, selected: Option<string>, dialog: Option<string>)
    requires s.db.Valid()
    requires !Blank(selected) ==> ModelPostsAdmin.HasId(selected.value)
    modifies s, s.db
    ensures s.db.Valid()
    ensures Blank(selected) ==> unchanged(s, s.db)
    ensures !Blank(selected) ==> AnyPostEdited(s, ModelPostsAdmin.GetID(selected.value), Trimmed(dialog))
    ensures AccountsKept(s.db)
  {
    if Blank(selected) {
      return;
    }
    var id := ModelPostsAdmin.GetID(selected.value);
    EditAnyPost(s, id, Trimmed(dialog));
  }

  /**
   * The outcome of an admin's edit of post `id` with the trimmed text of
   * the dialog: nothing changes for a cancelled dialog or an empty text;
   * otherwise the post holds the text, unless it is longer than the column,
   * and the list is refreshed.
   */
  twostate predicate AnyPostEdited(s: Screen, id: Int32, text: Option<string>)
    reads s, s.db
  {
    if text.None? || |text.value| == 0 then
      unchanged(s, s.db)
    else
      s.db.posts == (if Utf16Length(text.value) <= ContentWidth
                       then PostsWithContent(old(s.db.posts), id, text.value)
                     else old(s.db.posts))
      && s.db.replies == old(s.db.replies) && PostsRefreshed(s)
  }

  /** The part of performEditPost after getID; `text` is the dialog's answer, trimmed. */
  method EditAnyPost(s: Screen, id: Int32, text: Option<string>)
    requires s.db.Valid()
    modifies s, s.db
    ensures s.db.Valid()
    ensures AnyPostEdited(s, id, text)
    ensures AccountsKept(s.db)
  {
    if text.Some? {
      var newText := text.value;
      if |newText| == 0 {
        return;
      }
      var _ := s.db.UpdatePost(id, newText);
      RefreshPosts(s);
    }
  }

  /**
   * performSubmitPost: text that is not exactly empty goes to createPost
   * under the admin's name with the tag "Admin"; then the list is
   * refreshed.
   */
  method PerformSubmitPost(s: Screen)
    requires s.db.Valid()
    modifies s, s.db
    ensures s.db.Valid()
    ensures |old(s.postContent)| == 0 ==> unchanged(s, s.db)
    ensures |old(s.postContent)| > 0 ==>
              (old(s.db.PostInsertAccepted(s.user.userName, s.postContent, Some(AdminTag))) ==>
                 s.db.posts == old(s.db.posts)
                               + [PostRow(old(s.db.nextPostId) as Int32, s.user.userName, s.postContent, Some(AdminTag))])
              && (!old(s.db.PostInsertAccepted(s.user.userName, s.postContent, Some(AdminTag))) ==>
                 s.db.posts == old(s.db.posts))
              && s.db.replies == old(s.db.replies) && PostsRefreshed(s)
    ensures AccountsKept(s.db)
  {
    var a := s.user.userName;
    var c := s.postContent;
    if |c| == 0 {
      return;
    }
    var _ := s.db.CreatePost(a, c, Some(AdminTag));
    RefreshPosts(s);
  }

  /** performCancel and performBackToPosts: back to the posts panel. */
  method PerformCancel(s: Screen)
    modifies s
    ensures s.panel == PostsPanel
    ensures s.user == old(s.user) && s.currentPostID == old(s.currentPostID)
    ensures s.postItems == old(s.postItems) && s.replyItems == old(s.replyItems)
    ensures s.postContent == old(s.postContent) && s.replyContent == old(s.replyContent)
    ensures s.postInReply == old(s.postInReply)
  {
    s.panel := PostsPanel;
  }

  /** performCreateReply: an empty text area on the create-reply panel. */
  method PerformCreateReply(s: Screen)
    modifies s
    ensures s.replyContent == "" && s.panel == CreateReplyPanel
    ensures s.user == old(s.user) && s.currentPostID == old(s.currentPostID)
    ensures s.postItems == old(s.postItems) && s.replyItems == old(s.replyItems)
    ensures s.postContent == old(s.postContent) && s.postInReply == old(s.postInReply)
  {
    s.replyContent := "";
    s.panel := CreateReplyPanel;
  }

  /**
   * performViewReplies: for a non-blank selection, the post's content,
   * the lines of its replies and its id are shown on the replies panel.
   */
  method PerformViewReplies(s: Screen, selected: Option<string>)
    requires !Blank(selected) ==> PostSelectable(s.db, selected.value)
    modifies s
    ensures RepliesRefreshed(s, Chosen(selected))
  {
    ViewRepliesOf(s, Chosen(selected));
  }

  /**
   * performDeleteReply: a non-blank reply line is deleted whoever wrote
   * it, and the replies of the post chosen on the posts list are shown
   * again.
   */
  method PerformDeleteReply(s: Screen, selectedReply: Option<string>, selectedPost: Option<string>)
    requires s.db.Valid()
    requires !Blank(selectedReply) ==> ModelPostsAdmin.HasId(selectedReply.value)
    requires !Blank(selectedPost) ==> PostSelectable(s.db, selectedPost.value)
    modifies s, s.db
    ensures s.db.Valid()
    ensures Blank(selectedReply) ==> unchanged(s, s.db)
    ensures !Blank(selectedReply) ==>
              s.db.replies == RepliesWithout(old(s.db.replies), ModelPostsAdmin.GetID(selectedReply.value))
              && RepliesRefreshed(s, Chosen(selectedPost))
    ensures s.db.posts == old(s.db.posts) && AccountsKept(s.db)
  {
    if Blank(selectedReply) {
      return;
    }
    var id := ModelPostsAdmin.GetID(selectedReply.value);
    var chosen := Chosen(selectedPost);
    var _ := s.db.DeleteReply(id);
    ViewRepliesOf(s, chosen);
  }

  /**
   * performEditReply: for a non-blank reply line, the dialog's trimmed
   * text, when not empty, goes to updateReply whoever wrote the reply, and
   * the replies of the chosen post are shown again.
   */
  method PerformEditReply(s: Screen, selectedReply: Option<string>, dialog: Option<string>,
                          selectedPost: Option<string>)
    requires s.db.Valid()
    requires !Blank(selectedReply) ==> ModelPostsAdmin.HasId(selectedReply.value)
    requires !Blank(selectedPost) ==> PostSelectable(s.db, selectedPost.value)
    modifies s, s.db
    ensures s.db.Valid()
    ensures Blank(selectedReply) ==> unchanged(s, s.db)
    ensures !Blank(selectedReply) ==>
              AnyReplyEdited(s, ModelPostsAdmin.GetID(selectedReply.value), Trimmed(dialog), Chosen(selectedPost))
    ensures s.db.posts == old(s.db.posts) && AccountsKept(s.db)
  {
    if Blank(selectedReply) {
      return;
    }
    var id := ModelPostsAdmin.GetID(selectedReply.value);
    EditAnyReply(s, id, Trimmed(dialog), Chosen(selectedPost));
  }

  /**
   * The outcome of an admin's edit of reply `id` with the trimmed text of
   * the dialog: nothing changes for a cancelled dialog or an empty text;
   * otherwise the reply holds the text, unless it is longer than the
   * column, and the replies of the chosen post are shown.
   */
  twostate predicate AnyReplyEdited(s: Screen, id: Int32, text: Option<string>, chosen: Option<Int32>)
    reads s, s.db
  {
    if text.None? || |text.value| == 0 then
      unchanged(s, s.db)
    else
      s.db.replies == (if Utf16Length(text.value) <= ContentWidth
                       then RepliesWithContent(old(s.db.replies), id, text.value)
                       else old(s.db.replies))
      && RepliesRefreshed(s, chosen)
  }

  /** The part of performEditReply after getID. */
  method EditAnyReply(s: Screen, id: Int32, text: Option<string>, chosen: Option<Int32>)
    requires s.db.Valid()
    requires chosen.Some? ==> PostExists(s.db.posts, chosen.value)
    modifies s, s.db
    ensures s.db.Valid()
    ensures AnyReplyEdited(s, id, text, chosen)
    ensures s.db.posts == old(s.db.posts) && AccountsKept(s.db)
  {
    if text.Some? {
      var newText := text.value;
      if |newText| == 0 {
        return;
      }
      var _ := s.db.UpdateReply(id, newText);
      ViewRepliesOf(s, chosen);
    }
  }

  /**
   * performSubmitReply: text that is not exactly empty goes to createReply
   * for the post whose replies were last opened, tagged "Admin"; then the
   * replies of the chosen post are shown again.
   */
  method PerformSubmitReply(s: Screen, selectedPost: Option<string>)
    requires s.db.Valid()
    requires !Blank(selectedPost) ==> PostSelectable(s.db, selectedPost.value)
    modifies s, s.db
    ensures s.db.Valid()
    ensures |old(s.replyContent)| == 0 ==> unchanged(s, s.db)
    ensures |old(s.replyContent)| > 0 ==>
              (old(s.db.ReplyInsertAccepted(s.currentPostID, s.user.userName, s.replyContent, Some(AdminTag))) ==>
                 s.db.replies == old(s.db.replies)
                                 + [ReplyRow(old(s.db.nextReplyId) as Int32, old(s.currentPostID), s.user.userName,
                                             s.replyContent, Some(AdminTag))])
              && (!old(s.db.ReplyInsertAccepted(s.currentPostID, s.user.userName, s.replyContent, Some(AdminTag))) ==>
                 s.db.replies == old(s.db.replies))
              && RepliesRefreshed(s, Chosen(selectedPost))
    ensures s.db.posts == old(s.db.posts) && AccountsKept(s.db)
  {
    var a := s.user.userName;
    var c := s.replyContent;
    if |c| == 0 {
      return;
    }
    var chosen := Chosen(selectedPost);
    var _ := s.db.CreateReply(s.currentPostID, a, c, Some(AdminTag));
    ViewRepliesOf(s, chosen);
  }

  /** performReplyCancel: back to the replies of the post chosen on the posts list. */
  method PerformReplyCancel(s: Screen, selectedPost: Option<string>)
    requires !Blank(selectedPost) ==> PostSelectable(s.db, selectedPost.value)
    modifies s
    ensures RepliesRefreshed(s, Chosen(selectedPost))
  {
    ViewRepliesOf(s, Chosen(selectedPost));
  }
}
