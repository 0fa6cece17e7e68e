/**
 * Display strings for the student posts view.  Its three helpers are the
 * admin view's, step for step (the same split at " author: ", split at
 * spaces and parse of word 1; the same layout with an "Unknown" badge for a
 * null role), so they are defined here by the admin ones and the round trips
 * carry over.
 */
module ModelPosts {
  import opened JavaStrings
  import opened EntityClasses
  import ModelPostsAdmin

  function GetID(s: string): Int32
    requires ModelPostsAdmin.HasId(s)
  {
    ModelPostsAdmin.GetID(s)
  }

  function FormatPostForDisplay(post: Post): string
    reads post
  {
    ModelPostsAdmin.FormatPostForDisplay(post)
  }

  function FormatReplyForDisplay(reply: Reply): string
    reads reply
  {
    ModelPostsAdmin.FormatReplyForDisplay(reply)
  }

  /** getID(formatPostForDisplay(p)) == p.getPostID() for every post. */
  lemma GetIDOfFormattedPost(post: Post)
    ensures ModelPostsAdmin.HasId(FormatPostForDisplay(post))
    ensures GetID(FormatPostForDisplay(post)) == post.GetPostID()
  {
    ModelPostsAdmin.GetIDOfFormattedPost(post);
  }

  /** getID(formatReplyForDisplay(r)) == r.getReplyID() for every reply. */
  lemma GetIDOfFormattedReply(reply: Reply)
    ensures ModelPostsAdmin.HasId(FormatReplyForDisplay(reply))
    ensures GetID(FormatReplyForDisplay(reply)) == reply.GetReplyID()
  {
    ModelPostsAdmin.GetIDOfFormattedReply(reply);
  }
}
