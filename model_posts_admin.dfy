/**
 * Display strings for the admin posts view: a post or a reply becomes
 * "id: X author: Y [R] content: Z", and getID reads X back out of such a
 * string (the list widget stores only the strings).
 */
module ModelPostsAdmin {
  import opened Wrappers
  import opened JavaStrings
  import opened EntityClasses

  const AuthorSeparator: string := " author: "

  /** The words of the part of s before the first " author: ". */
  function IdWords(s: string): seq<string> {
    SplitOnSpace(Before(s, AuthorSeparator))
  }

  /**
   * getID returns normally only when the second word before " author: "
   * parses as an int; otherwise Java throws (an index or a number-format
   * exception), which the model turns into this precondition.
   */
  predicate HasId(s: string) {
    |IdWords(s)| >= 2 && ParseInt(IdWords(s)[1]).Some?
  }

  /** Split at " author: ", keep the first part, split it at spaces, parse word 1. */
  function GetID(s: string): Int32
    requires HasId(s)
  {
    ParseInt(IdWords(s)[1]).value
  }

  /** The badge shown between brackets: the stored role, "Unknown" when it is null. */
  function RoleBadge(role: Option<string>): string {
    role.GetOr("Unknown")
  }

  /** The display layout shared by posts and replies. */
  function Display(id: Int32, author: string, role: Option<string>, content: string): string {
    "id: " + IntToString(id) + AuthorSeparator + Trailer(author, role, content)
  }

  /** What follows the id: the author, the role badge and the content. */
  function Trailer(author: string, role: Option<string>, content: string): string {
    author + " [" + RoleBadge(role) + "] " + "content: " + content
  }

  function FormatPostForDisplay(post: Post): string
    reads post
  {
    Display(post.id, post.author, post.authorRole, post.content)
  }

  /** The parent post id is not part of a reply's display string. */
  function FormatReplyForDisplay(reply: Reply): string
    reads reply
  {
    Display(reply.id, reply.author, reply.authorRole, reply.content)
  }

  /**
   * Whatever follows it, a string that starts "id: X author: " yields X:
   * the first " author: " is the one after the id, because no character of
   * "id: " + X can start that separator.
   */
  lemma IdHeaderRoundTrip(id: Int32, rest: string)
    ensures HasId("id: " + IntToString(id) + AuthorSeparator + rest)
    ensures GetID("id: " + IntToString(id) + AuthorSeparator + rest) == id
  {
    var digits := IntToString(id);
    IntToStringShape(id);
    var x := "id: " + digits;
    var s := x + AuthorSeparator + rest;
    forall k | 1 <= k <= |x| ensures s[k] != 'a' {
      if k < |x| {
        assert s[k] == x[k];
        if k >= 4 {
          assert x[k] == digits[k - 4];
        }
      } else {
        assert s[k] == AuthorSeparator[0];
      }
    }
    forall j | 0 <= j < |x| ensures !(AuthorSeparator <= s[j..]) {
      assert s[j..][1] == s[j + 1];
    }
    BeforeFirst(x, AuthorSeparator, rest);
    assert x == "id:" + " " + digits;
    SplitTwoWords("id:", digits);
    IntToStringRoundTrip(id);
  }

  /** Any string laid out by Display gives back its id. */
  lemma DisplayRoundTrip(id: Int32, author: string, role: Option<string>, content: string)
    ensures HasId(Display(id, author, role, content))
    ensures GetID(Display(id, author, role, content)) == id
  {
    IdHeaderRoundTrip(id, Trailer(author, role, content));
  }

  /** getID(formatPostForDisplay(p)) == p.getPostID(), whatever the author, role or content. */
  lemma GetIDOfFormattedPost(post: Post)
    ensures HasId(FormatPostForDisplay(post))
    ensures GetID(FormatPostForDisplay(post)) == post.GetPostID()
  {
    DisplayRoundTrip(post.id, post.author, post.authorRole, post.content);
  }

  /** getID(formatReplyForDisplay(r)) == r.getReplyID(). */
  lemma GetIDOfFormattedReply(reply: Reply)
    ensures HasId(FormatReplyForDisplay(reply))
    ensures GetID(FormatReplyForDisplay(reply)) == reply.GetReplyID()
  {
    DisplayRoundTrip(reply.id, reply.author, reply.authorRole, reply.content);
  }

  /** Post.toString has the same "id: X author: " head, so getID reads it back too. */
  lemma GetIDOfPostToString(post: Post)
    ensures HasId(post.ToString())
    ensures GetID(post.ToString()) == post.GetPostID()
  {
    var rest := post.author + " content: " + post.content;
    assert post.ToString() == "id: " + IntToString(post.id) + AuthorSeparator + rest;
    IdHeaderRoundTrip(post.id, rest);
  }

  /** Reply.toString has the same head as well. */
  lemma GetIDOfReplyToString(reply: Reply)
    ensures HasId(reply.ToString())
    ensures GetID(reply.ToString()) == reply.GetReplyID()
  {
    var rest := reply.author + " content: " + reply.content;
    assert reply.ToString() == "id: " + IntToString(reply.id) + AuthorSeparator + rest;
    IdHeaderRoundTrip(reply.id, rest);
  }

  /** A null role and the role "Unknown" look the same on screen. */
  lemma NullRoleShownAsUnknown(id: Int32, author: string, content: string)
    ensures Display(id, author, None, content) == Display(id, author, Some("Unknown"), content)
  {
  }
}
