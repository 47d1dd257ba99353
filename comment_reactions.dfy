/** `updateReactionComment`: a "like" or "disLike" on a comment's embedded reactions. */
module CommentReactions {
  import opened Common
  import opened EmbeddedReactions

  datatype CommentError = CommentNotFound

  /** Looks the comment up in `comments`, then applies the toggle that `data` names; any other
      `data` value leaves the comment as it was and still succeeds. */
  method UpdateReactionComment(comments: map<DocId, Reactions>, currentUserId: UserId,
                               commentId: DocId, data: string) returns (r: Outcome<CommentError>)
    modifies if commentId in comments then {comments[commentId]} else {}
    ensures r == if commentId in comments then Pass else Fail(CommentNotFound)
    ensures commentId in comments ==>
      comments[commentId].Value() ==
        if data == "like" then PressedLike(old(comments[commentId].Value()), currentUserId)
        else if data == "disLike" then PressedDisLike(old(comments[commentId].Value()), currentUserId)
        else old(comments[commentId].Value())
    ensures commentId in comments && old(Consistent(comments[commentId].Value())) ==>
      Consistent(comments[commentId].Value())
  {
    if commentId !in comments {
      return Fail(CommentNotFound);
    }
    var comment := comments[commentId];
    if data == "like" {
      comment.PressLike(currentUserId);
    }
    if data == "disLike" {
      comment.PressDisLike(currentUserId);
    }
    return Pass;
  }
}
