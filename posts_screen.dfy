/**
 * The state the two discussion-board views hold and their controllers
 * work on: the signed-in user, the database, the two list widgets' items,
 * the three text areas, the post whose replies are shown, and which of the
 * four panels is visible. The student view and the admin view hold the
 * same state, so both controllers use this one class.
 */
module PostsScreen {
  import opened Wrappers
  import opened JavaStrings
  import opened DatabaseTables
  import opened Database
  import opened EntityClasses
  import ModelPostsAdmin

  /** The four panels of the view; exactly one is visible. */
  datatype Panel = PostsPanel | CreatePostPanel | RepliesPanel | CreateReplyPanel

  class Screen {
    var user: User
    const db: Database
    /** The post whose replies are listed; -1 before any has been opened. */
    var currentPostID: Int32
    var postItems: seq<string>
    var replyItems: seq<string>
    /** text_PostContent, text_ReplyContent and text_PostInReply. */
    var postContent: string
    var replyContent: string
    var postInReply: string
    var panel: Panel

    /**
     * The view as first built: the posts panel, nothing typed yet and no
     * post opened. The view then calls performViewPosts, so the list is
     * filled before it is shown (PerformViewPosts models that step). A
     * later displayPosts reuses this object without resetting it.
     */
    constructor (user: User, db: Database)
      ensures this.user == user && this.db == db && currentPostID == -1
      ensures postItems == [] && replyItems == [] && postContent == "" && replyContent == "" && postInReply == ""
      ensures panel == PostsPanel
    {
      this.user := user;
      this.db := db;
      currentPostID := -1;
      postItems, replyItems := [], [];
      postContent, replyContent, postInReply := "", "", "";
      panel := PostsPanel;
    }
  }

  /** How a row of the Post table is listed. */
  function PostLine(row: PostRow): string {
    ModelPostsAdmin.Display(row.id, row.author, row.authorRole, row.content)
  }

  function ReplyLine(row: ReplyRow): string {
    ModelPostsAdmin.Display(row.id, row.author, row.authorRole, row.content)
  }

  /** A row stored with a NULL authorRole is listed with the badge "[Unknown]". */
  lemma NullRoleRowListed(row: PostRow)
    requires row.authorRole.None?
    ensures PostLine(row) == ModelPostsAdmin.Display(row.id, row.author, Some("Unknown"), row.content)
  {
    ModelPostsAdmin.NullRoleShownAsUnknown(row.id, row.author, row.content);
  }

  /** The posts list after a refresh: one line per row, in table order. */
  function PostLines(rows: seq<PostRow>): (lines: seq<string>)
    ensures |lines| == |rows|
  {
    if rows == [] then [] else [PostLine(rows[0])] + PostLines(rows[1..])
  }

  function ReplyLines(rows: seq<ReplyRow>): (lines: seq<string>)
    ensures |lines| == |rows|
  {
    if rows == [] then [] else [ReplyLine(rows[0])] + ReplyLines(rows[1..])
  }

  /** Line i of the posts list is the line of row i. */
  lemma {:induction false} PostLinesAt(rows: seq<PostRow>)
    ensures forall i :: 0 <= i < |rows| ==> PostLines(rows)[i] == PostLine(rows[i])
  {
    if rows != [] {
      PostLinesAt(rows[1..]);
    }
  }

  lemma {:induction false} ReplyLinesAt(rows: seq<ReplyRow>)
    ensures forall i :: 0 <= i < |rows| ==> ReplyLines(rows)[i] == ReplyLine(rows[i])
  {
    if rows != [] {
      ReplyLinesAt(rows[1..]);
    }
  }

  /** Every line of the posts list gives back, through getID, the id of its row. */
  lemma PostLinesRoundTrip(rows: seq<PostRow>)
    ensures forall i :: 0 <= i < |rows| ==>
              ModelPostsAdmin.HasId(PostLines(rows)[i]) && ModelPostsAdmin.GetID(PostLines(rows)[i]) == rows[i].id
  {
    PostLinesAt(rows);
    forall i | 0 <= i < |rows|
      ensures ModelPostsAdmin.HasId(PostLines(rows)[i]) && ModelPostsAdmin.GetID(PostLines(rows)[i]) == rows[i].id
    {
      var row := rows[i];
      ModelPostsAdmin.DisplayRoundTrip(row.id, row.author, row.authorRole, row.content);
    }
  }

  lemma ReplyLinesRoundTrip(rows: seq<ReplyRow>)
    ensures forall i :: 0 <= i < |rows| ==>
              ModelPostsAdmin.HasId(ReplyLines(rows)[i]) && ModelPostsAdmin.GetID(ReplyLines(rows)[i]) == rows[i].id
  {
    ReplyLinesAt(rows);
    forall i | 0 <= i < |rows|
      ensures ModelPostsAdmin.HasId(ReplyLines(rows)[i]) && ModelPostsAdmin.GetID(ReplyLines(rows)[i]) == rows[i].id
    {
      var row := rows[i];
      ModelPostsAdmin.DisplayRoundTrip(row.id, row.author, row.authorRole, row.content);
    }
  }

  /** The loop of performViewPosts: one formatted line per Post object, each object showing its row. */
  method FormatPosts(list: seq<Post>, ghost rows: seq<PostRow>) returns (items: seq<string>)
    requires |list| == |rows| && forall i :: 0 <= i < |rows| ==> ShowsPost(list[i], rows[i])
    ensures items == PostLines(rows)
  {
    items := [];
    for i := 0 to |list|
      invariant |items| == i
      invariant forall k :: 0 <= k < i ==> items[k] == PostLine(rows[k])
    {
      assert ShowsPost(list[i], rows[i]);
      items := items + [ModelPostsAdmin.FormatPostForDisplay(list[i])];
    }
    PostLinesAt(rows);
  }

  /** The loop of performViewReplies. */
  method FormatReplies(list: seq<Reply>, ghost rows: seq<ReplyRow>) returns (items: seq<string>)
    requires |list| == |rows| && forall i :: 0 <= i < |rows| ==> ShowsReply(list[i], rows[i])
    ensures items == ReplyLines(rows)
  {
    items := [];
    for i := 0 to |list|
      invariant |items| == i
      invariant forall k :: 0 <= k < i ==> items[k] == ReplyLine(rows[k])
    {
      assert ShowsReply(list[i], rows[i]);
      items := items + [ModelPostsAdmin.FormatReplyForDisplay(list[i])];
    }
    ReplyLinesAt(rows);
  }

  /** performViewPosts' fetch and loop: getAllPosts, then one formatted line per post. */
  method ListPosts(db: Database) returns (items: seq<string>)
    ensures items == PostLines(db.posts)
  {
    var list := db.GetAllPosts();
    items := FormatPosts(list, db.posts);
  }

  /** performViewReplies' fetch and loop: getRepliesByPost, then one formatted line per reply. */
  method ListReplies(db: Database, id: Int32) returns (items: seq<string>)
    ensures items == ReplyLines(RepliesOf(db.replies, id))
  {
    var list := db.GetRepliesByPost(id);
    items := FormatReplies(list, RepliesOf(db.replies, id));
  }

  /**
   * Whatever line of a freshly listed posts table is selected, getID reads
   * an id that getPost finds, and the post found is the one on that line.
   */
  lemma SelectedPostIsListed(posts: seq<PostRow>, nextId: int, line: string)
    requires PostKeys(posts, nextId) && line in PostLines(posts)
    ensures ModelPostsAdmin.HasId(line)
    ensures PostExists(posts, ModelPostsAdmin.GetID(line))
    ensures PostLine(FindPost(posts, ModelPostsAdmin.GetID(line)).value) == line
  {
    var lines := PostLines(posts);
    PostLinesRoundTrip(posts);
    PostLinesAt(posts);
    var i :| 0 <= i < |lines| && lines[i] == line;
    assert line == PostLine(posts[i]) && ModelPostsAdmin.GetID(line) == posts[i].id;
    assert posts[i] in posts;
    FindPostUnique(posts, nextId, posts[i]);
  }

  /** The same for a line of the replies list of one post. */
  lemma SelectedReplyIsListed(replies: seq<ReplyRow>, nextId: int, postId: int, line: string)
    requires ReplyKeys(replies, nextId) && line in ReplyLines(RepliesOf(replies, postId))
    ensures ModelPostsAdmin.HasId(line)
    ensures ReplyExists(replies, ModelPostsAdmin.GetID(line))
    ensures ReplyLine(FindReply(replies, ModelPostsAdmin.GetID(line)).value) == line
  {
    var rows := RepliesOf(replies, postId);
    var lines := ReplyLines(rows);
    ReplyLinesRoundTrip(rows);
    ReplyLinesAt(rows);
    var i :| 0 <= i < |lines| && lines[i] == line;
    assert line == ReplyLine(rows[i]) && ModelPostsAdmin.GetID(line) == rows[i].id;
    assert rows[i] in rows;
    FindReplyUnique(replies, nextId, rows[i]);
  }

  /** performBack: the home page the "Go Back Home" button leads to. */
  datatype Home = AdminHome | Role1Home | Role2Home

  /** No field of the screen changed. */
  twostate predicate ScreenKept(s: Screen)
    reads s
  {
    s.user == old(s.user) && s.currentPostID == old(s.currentPostID)
    && s.postItems == old(s.postItems) && s.replyItems == old(s.replyItems)
    && s.postContent == old(s.postContent) && s.replyContent == old(s.replyContent)
    && s.postInReply == old(s.postInReply) && s.panel == old(s.panel)
  }

  /** performViewPosts' effect: the posts list shows the Post table and the posts panel is up; nothing else changed. */
  twostate predicate PostsRefreshed(s: Screen)
    reads s, s.db
  {
    s.postItems == PostLines(s.db.posts) && s.panel == PostsPanel
    && s.user == old(s.user) && s.currentPostID == old(s.currentPostID) && s.replyItems == old(s.replyItems)
    && s.postContent == old(s.postContent) && s.replyContent == old(s.replyContent)
    && s.postInReply == old(s.postInReply)
  }

  /**
   * The post a selected line of the posts list names: none for a blank
   * selection, otherwise the id getID reads from the line.
   */
  function Chosen(selected: Option<string>): Option<Int32>
    requires !Blank(selected) ==> ModelPostsAdmin.HasId(selected.value)
  {
    if Blank(selected) then None else Some(ModelPostsAdmin.GetID(selected.value))
  }

  /**
   * performViewReplies' effect for the post chosen on the posts list:
   * nothing when none is; otherwise the post's content, its replies and its
   * id are shown on the replies panel.
   */
  twostate predicate RepliesRefreshed(s: Screen, chosen: Option<Int32>)
    reads s, s.db
  {
    match chosen
    case None => ScreenKept(s)
    case Some(id) => RepliesShown(s, id)
  }

  /** The replies panel shows post `id`: its content, the lines of its replies, and its id as the current post. */
  twostate predicate RepliesShown(s: Screen, id: Int32)
    reads s, s.db
  {
    (match FindPost(s.db.posts, id)
     case None => false
     case Some(row) => s.postInReply == row.content)
    && s.replyItems == ReplyLines(RepliesOf(s.db.replies, id)) && s.currentPostID == id
    && s.panel == RepliesPanel
    && s.user == old(s.user) && s.postItems == old(s.postItems)
    && s.postContent == old(s.postContent) && s.replyContent == old(s.replyContent)
  }

  /** The user table, the invitation codes and the current-user fields did not change. */
  twostate predicate AccountsKept(db: Database)
    reads db
  {
    db.users == old(db.users) && db.invitations == old(db.invitations) && db.current == old(db.current)
  }

  /** What a selection must be for getID to return normally and getPost to find the post (no exception, no null). */
  predicate PostSelectable(db: Database, selected: string)
    reads db
  {
    ModelPostsAdmin.HasId(selected) && PostExists(db.posts, ModelPostsAdmin.GetID(selected))
  }

  predicate ReplySelectable(db: Database, selected: string)
    reads db
  {
    ModelPostsAdmin.HasId(selected) && ReplyExists(db.replies, ModelPostsAdmin.GetID(selected))
  }

  /** What the edit dialog hands back, trimmed: None when it was cancelled. */
  function Trimmed(dialog: Option<string>): Option<string> {
    if dialog.Some? then Some(Trim(dialog.value)) else None
  }

  /** A selection that is null, or only blanks, makes the edit and view actions return at once. */
  predicate Blank(selected: Option<string>) {
    selected.None? || |Trim(selected.value)| == 0
  }

  /** The refresh both controllers' performViewPosts do: the posts list shows the Post table on the posts panel. */
  method RefreshPosts(s: Screen)
    modifies s
    ensures PostsRefreshed(s)
  {
    var items := ListPosts(s.db);
    s.postItems := items;
    s.panel := PostsPanel;
  }

  /** performViewReplies once the selection is read: nothing for none, otherwise the replies of that post. */
  method ViewRepliesOf(s: Screen, chosen: Option<Int32>)
    requires chosen.Some? ==> PostExists(s.db.posts, chosen.value)
    modifies s
    ensures RepliesRefreshed(s, chosen)
  {
    if chosen.Some? {
      ShowReplies(s, chosen.value);
    }
  }

  /** The part of performViewReplies after getID: the post and its replies are fetched and shown. */
  method ShowReplies(s: Screen, id: Int32)
    requires PostExists(s.db.posts, id)
    modifies s
    ensures RepliesShown(s, id)
  {
    var post := s.db.GetPost(id);
    var items := ListReplies(s.db, id);
    s.postInReply := post.GetContent();
    s.replyItems := items;
    s.currentPostID := id;
    s.panel := RepliesPanel;
  }
}
