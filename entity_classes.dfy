/**
 * The entity records of the discussion board (a post, a reply) and the two
 * in-memory list wrappers around them.  Posts and replies are mutable objects:
 * exactly the fields with a setter are `var`s, the others are `const`s, so the
 * type system itself says they never change after construction.
 */
module EntityClasses {
  import opened Wrappers
  import opened JavaStrings

  // =====================================================================
  // Post
  // =====================================================================

  class Post {
    var id: Int32
    const author: string
    var content: string
    /** May be null in Java (older rows have no role); None here. */
    var authorRole: Option<string>

    constructor (id: Int32, author: string, content: string, authorRole: Option<string>)
      ensures GetPostID() == id && GetAuthor() == author
      ensures GetContent() == content && GetAuthorRole() == authorRole
    {
      this.id := id;
      this.author := author;
      this.content := content;
      this.authorRole := authorRole;
    }

    function GetPostID(): Int32 reads this { id }
    function GetAuthor(): string { author }
    function GetContent(): string reads this { content }
    function GetAuthorRole(): Option<string> reads this { authorRole }

    method SetPostId(id: Int32)
      modifies this
      ensures this.id == id
      ensures content == old(content) && authorRole == old(authorRole)
    {
      this.id := id;
    }

    method SetContent(content: string)
      modifies this
      ensures this.content == content
      ensures id == old(id) && authorRole == old(authorRole)
    {
      this.content := content;
    }

    method SetAuthorRole(authorRole: Option<string>)
      modifies this
      ensures this.authorRole == authorRole
      ensures id == old(id) && content == old(content)
    {
      this.authorRole := authorRole;
    }

    /** "id: X author: Y content: Z": the role is not shown. */
    function ToString(): string reads this {
      "id: " + IntToString(id) + " author: " + author + " content: " + content
    }
  }

  // =====================================================================
  // Reply
  // =====================================================================

  class Reply {
    var id: Int32
    const postID: Int32
    const author: string
    var content: string
    const authorRole: Option<string>

    constructor (id: Int32, postID: Int32, author: string, content: string, authorRole: Option<string>)
      ensures GetReplyID() == id && GetPostID() == postID && GetAuthor() == author
      ensures GetContent() == content && GetAuthorRole() == authorRole
    {
      this.id := id;
      this.postID := postID;
      this.author := author;
      this.content := content;
      this.authorRole := authorRole;
    }

    function GetReplyID(): Int32 reads this { id }
    function GetPostID(): Int32 { postID }
    function GetAuthor(): string { author }
    function GetContent(): string reads this { content }
    function GetAuthorRole(): Option<string> { authorRole }

    method SetReplyId(id: Int32)
      modifies this
      ensures this.id == id && content == old(content)
    {
      this.id := id;
    }

    method SetContent(content: string)
      modifies this
      ensures this.content == content && id == old(id)
    {
      this.content := content;
    }

    /** "id: X author: Y content: Z": neither the parent post nor the role is shown. */
    function ToString(): string reads this {
      "id: " + IntToString(id) + " author: " + author + " content: " + content
    }
  }

  // =====================================================================
  // List operations used by both collections
  // =====================================================================

  /** ArrayList.remove(Object) without an equals override: drop the first element identical to x. */
  function RemoveFirst<T(==)>(s: seq<T>, x: T): seq<T> {
    if s == [] then []
    else if s[0] == x then s[1..]
    else [s[0]] + RemoveFirst(s[1..], x)
  }

  lemma {:induction false} RemoveFirstSpec<T>(s: seq<T>, x: T)
    ensures x in s ==> |RemoveFirst(s, x)| == |s| - 1 && multiset(RemoveFirst(s, x)) == multiset(s) - multiset{x}
    ensures x !in s ==> RemoveFirst(s, x) == s
  {
    if s != [] {
      assert s == [s[0]] + s[1..];
      if s[0] != x {
        RemoveFirstSpec(s[1..], x);
      }
    }
  }

  /** removeIf(p -> p.getPostID() == id) */
  function PostsWithoutId(s: seq<Post>, id: int): seq<Post>
    reads s
  {
    if s == [] then []
    else if s[0].id == id then PostsWithoutId(s[1..], id)
    else [s[0]] + PostsWithoutId(s[1..], id)
  }

  /**
   * What removePostById keeps: no post with that id, every other post of s,
   * nothing else, and s itself when no post had that id.
   */
  lemma {:induction false} PostsWithoutIdSpec(s: seq<Post>, id: int)
    ensures forall q :: q in PostsWithoutId(s, id) ==> q in s && q.id != id
    ensures forall q :: q in s && q.id != id ==> q in PostsWithoutId(s, id)
    ensures |PostsWithoutId(s, id)| < |s| <==> exists q :: q in s && q.id == id
    ensures |PostsWithoutId(s, id)| <= |s|
  {
    if s != [] {
      PostsWithoutIdSpec(s[1..], id);
      assert forall q :: q in s <==> q == s[0] || q in s[1..];
    }
  }

  /** removeIf(r -> r.getReplyID() == id) */
  function RepliesWithoutId(s: seq<Reply>, id: int): seq<Reply>
    reads s
  {
    if s == [] then []
    else if s[0].id == id then RepliesWithoutId(s[1..], id)
    else [s[0]] + RepliesWithoutId(s[1..], id)
  }

  lemma {:induction false} RepliesWithoutIdSpec(s: seq<Reply>, id: int)
    ensures forall q :: q in RepliesWithoutId(s, id) ==> q in s && q.id != id
    ensures forall q :: q in s && q.id != id ==> q in RepliesWithoutId(s, id)
    ensures |RepliesWithoutId(s, id)| < |s| <==> exists q :: q in s && q.id == id
    ensures |RepliesWithoutId(s, id)| <= |s|
  {
    if s != [] {
      RepliesWithoutIdSpec(s[1..], id);
      assert forall q :: q in s <==> q == s[0] || q in s[1..];
    }
  }

  /** The replies of s that belong to post postId, in their order in s. */
  function RepliesOfPost(s: seq<Reply>, postId: int): seq<Reply> {
    if s == [] then []
    else if s[|s| - 1].postID == postId then RepliesOfPost(s[..|s| - 1], postId) + [s[|s| - 1]]
    else RepliesOfPost(s[..|s| - 1], postId)
  }

  /**
   * getRepliesByPost holds exactly the replies with that post id, each
   * taken from the receiver, and never more of them than the receiver has.
   */
  lemma {:induction false} RepliesOfPostSpec(s: seq<Reply>, postId: int)
    ensures forall r :: r in RepliesOfPost(s, postId) <==> r in s && r.postID == postId
    ensures |RepliesOfPost(s, postId)| <= |s|
  {
    if s != [] {
      RepliesOfPostSpec(s[..|s| - 1], postId);
      assert s == s[..|s| - 1] + [s[|s| - 1]];
    }
  }

  /** Filtering keeps the original order: the filter of a concatenation is the concatenation of the filters. */
  lemma {:induction false} RepliesOfPostAppend(a: seq<Reply>, b: seq<Reply>, postId: int)
    ensures RepliesOfPost(a + b, postId) == RepliesOfPost(a, postId) + RepliesOfPost(b, postId)
  {
    if b != [] {
      assert (a + b)[..|a + b| - 1] == a + b[..|b| - 1];
      RepliesOfPostAppend(a, b[..|b| - 1], postId);
    } else {
      assert a + b == a;
    }
  }

  // =====================================================================
  // PostCollection
  // =====================================================================

  class PostCollection {
    var posts: seq<Post>

    constructor ()
      ensures posts == []
    {
      posts := [];
    }

    /** The list constructor copies its argument. */
    constructor FromList(list: seq<Post>)
      ensures posts == list
    {
      posts := list;
    }

    method AddPost(post: Post)
      modifies this
      ensures posts == old(posts) + [post]
      ensures Size() == old(Size()) + 1
    {
      posts := posts + [post];
    }

    /** Removes the first element that is this very object; reports whether there was one. */
    method RemovePost(post: Post) returns (found: bool)
      modifies this
      ensures found <==> post in old(posts)
      ensures posts == RemoveFirst(old(posts), post)
      ensures found ==> Size() == old(Size()) - 1
      ensures !found ==> posts == old(posts)
    {
      found := post in posts;
      RemoveFirstSpec(posts, post);
      posts := RemoveFirst(posts, post);
    }

    method RemovePostById(postId: int) returns (removed: bool)
      modifies this
      ensures posts == PostsWithoutId(old(posts), postId)
      ensures removed <==> exists q :: q in old(posts) && q.id == postId
      ensures !removed ==> posts == old(posts)
    {
      PostsWithoutIdSpec(posts, postId);
      removed := |PostsWithoutId(posts, postId)| < |posts|;
      if !removed {
        NoneRemovedPosts(posts, postId);
      }
      posts := PostsWithoutId(posts, postId);
    }

    /** The returned list is a value: changing it cannot change this collection. */
    function GetAllPosts(): seq<Post> reads this { posts }

    /** The first post with that id, or null. */
    method GetPostById(postId: int) returns (r: Post?)
      ensures r == null <==> forall i :: 0 <= i < |posts| ==> posts[i].id != postId
      ensures r != null ==> exists k :: 0 <= k < |posts| && posts[k] == r && r.id == postId
                                       && forall i :: 0 <= i < k ==> posts[i].id != postId
    {
      var i := 0;
      while i < |posts|
        invariant 0 <= i <= |posts|
        invariant forall j :: 0 <= j < i ==> posts[j].id != postId
      {
        if posts[i].id == postId {
          return posts[i];
        }
        i := i + 1;
      }
      return null;
    }

    function Size(): nat reads this { |posts| }

    function IsEmpty(): bool reads this { |posts| == 0 }

    method Clear()
      modifies this
      ensures posts == [] && IsEmpty()
    {
      posts := [];
    }

    function ToString(): string reads this {
      "PostCollection [" + IntToString(|posts|) + " posts]"
    }
  }

  lemma {:induction false} NoneRemovedPosts(s: seq<Post>, id: int)
    requires forall q :: q in s ==> q.id != id
    ensures PostsWithoutId(s, id) == s
  {
    if s != [] {
      NoneRemovedPosts(s[1..], id);
      assert s == [s[0]] + s[1..];
    }
  }

  lemma {:induction false} NoneRemovedReplies(s: seq<Reply>, id: int)
    requires forall q :: q in s ==> q.id != id
    ensures RepliesWithoutId(s, id) == s
  {
    if s != [] {
      NoneRemovedReplies(s[1..], id);
      assert s == [s[0]] + s[1..];
    }
  }

  // =====================================================================
  // ReplyCollection
  // =====================================================================

  class ReplyCollection {
    var replies: seq<Reply>

    constructor ()
      ensures replies == []
    {
      replies := [];
    }

    constructor FromList(list: seq<Reply>)
      ensures replies == list
    {
      replies := list;
    }

    method AddReply(reply: Reply)
      modifies this
      ensures replies == old(replies) + [reply]
      ensures Size() == old(Size()) + 1
    {
      replies := replies + [reply];
    }

    method RemoveReply(reply: Reply) returns (found: bool)
      modifies this
      ensures found <==> reply in old(replies)
      ensures replies == RemoveFirst(old(replies), reply)
      ensures found ==> Size() == old(Size()) - 1
      ensures !found ==> replies == old(replies)
    {
      found := reply in replies;
      RemoveFirstSpec(replies, reply);
      replies := RemoveFirst(replies, reply);
    }

    method RemoveReplyById(replyId: int) returns (removed: bool)
      modifies this
      ensures replies == RepliesWithoutId(old(replies), replyId)
      ensures removed <==> exists q :: q in old(replies) && q.id == replyId
      ensures !removed ==> replies == old(replies)
    {
      RepliesWithoutIdSpec(replies, replyId);
      removed := |RepliesWithoutId(replies, replyId)| < |replies|;
      if !removed {
        NoneRemovedReplies(replies, replyId);
      }
      replies := RepliesWithoutId(replies, replyId);
    }

    /** The returned list is a value: changing it cannot change this collection. */
    function GetAllReplies(): seq<Reply> reads this { replies }

    method GetReplyById(replyId: int) returns (r: Reply?)
      ensures r == null <==> forall i :: 0 <= i < |replies| ==> replies[i].id != replyId
      ensures r != null ==> exists k :: 0 <= k < |replies| && replies[k] == r && r.id == replyId
                                       && forall i :: 0 <= i < k ==> replies[i].id != replyId
    {
      var i := 0;
      while i < |replies|
        invariant 0 <= i <= |replies|
        invariant forall j :: 0 <= j < i ==> replies[j].id != replyId
      {
        if replies[i].id == replyId {
          return replies[i];
        }
        i := i + 1;
      }
      return null;
    }

    /** A new collection with the replies of one post, in order; the receiver is left as it was. */
    method GetRepliesByPost(postId: int) returns (subset: ReplyCollection)
      ensures fresh(subset)
      ensures subset.replies == RepliesOfPost(replies, postId)
    {
      subset := new ReplyCollection();
      var i := 0;
      while i < |replies|
        invariant 0 <= i <= |replies|
        invariant subset.replies == RepliesOfPost(replies[..i], postId)
      {
        var reply := replies[i];
        assert replies[..i + 1] == replies[..i] + [reply];
        RepliesOfPostAppend(replies[..i], [reply], postId);
        assert RepliesOfPost([reply], postId) == RepliesOfPost([], postId) + (if reply.postID == postId then [reply] else []);
        if reply.postID == postId {
          subset.AddReply(reply);
        }
        i := i + 1;
      }
      assert replies[..i] == replies;
    }

    function Size(): nat reads this { |replies| }

    function IsEmpty(): bool reads this { |replies| == 0 }

    method Clear()
      modifies this
      ensures replies == [] && IsEmpty()
    {
      replies := [];
    }

    function ToString(): string reads this {
      "ReplyCollection [" + IntToString(|replies|) + " replies]"
    }
  }
}
