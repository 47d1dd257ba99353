/** Three call sequences over the handlers, verified against the handlers' contracts alone. */
module Scenarios {
  import opened Common
  import opened Friends
  import opened EmbeddedReactions
  import StoryReactions
  import ReactionRecords

  /** A asks B; B declines; B later asks A, which supersedes the declined record; A accepts,
      and both users end with one friend. */
  method DeclineThenResend(a: UserId, b: UserId)
    requires a != b
  {
    var store := new FriendStore({a, b});
    var r := store.SendFriendRequest(a, b);
    assert r == Ok(Friend(a, b, Pending)) && store.records == [Friend(a, b, Pending)];
    r := store.ReactFriendRequest(b, a, RequestBody(Declined));
    assert store.records == [Friend(a, b, Declined)];
    r := store.SendFriendRequest(b, a);
    assert store.records == [Friend(b, a, Pending)];
    r := store.ReactFriendRequest(a, b, RequestBody(Accepted));
    assert store.records == [Friend(b, a, Accepted)];
    assert [Friend(b, a, Accepted)][..0] == [];
    assert store.friendCount[a] == 1 && store.friendCount[b] == 1;
  }

  /** On a story without reactions: U1 likes, U2 dislikes, U1 dislikes (a flip), U1
      dislikes again (withdrawn). */
  method LikeFlipWithdraw(u1: UserId, u2: UserId, storyId: DocId)
    requires u1 != u2
  {
    var story := new Reactions();
    var stories := map[storyId := story];
    var r := StoryReactions.UpdateReactionStory(stories, u1, storyId, "like");
    assert story.Value() == Tally([u1], [], 1, 0);
    r := StoryReactions.UpdateReactionStory(stories, u2, storyId, "disLike");
    assert story.Value() == Tally([u1], [u2], 1, 1);
    r := StoryReactions.UpdateReactionStory(stories, u1, storyId, "disLike");
    assert story.Value() == Tally([], [u2, u1], 0, 2);
    r := StoryReactions.UpdateReactionStory(stories, u1, storyId, "disLike");
    assert story.Value() == Tally([], [u2], 0, 1);
    assert r == Pass;
  }

  /** A like on a post, then a dislike by the same user: one record, now a dislike, and the
      recount moves from {1, 0} to {0, 1}. */
  method LikeThenDislikeRecord(u: UserId, postId: DocId)
  {
    var post := ReactionRecords.Target(ReactionRecords.Post, postId);
    var store := new ReactionRecords.ReactionStore({post});
    var counts := store.SaveReaction(u, ReactionRecords.Post, postId, Like);
    assert store.reactions == [ReactionRecords.Reaction(ReactionRecords.Post, postId, u, Like)];
    assert store.reactions[..0] == [];
    assert counts == ReactionRecords.Counts(1, 0);
    counts := store.SaveReaction(u, ReactionRecords.Post, postId, Dislike);
    assert store.reactions == [ReactionRecords.Reaction(ReactionRecords.Post, postId, u, Dislike)];
    assert store.reactions[..0] == [];
    assert counts == ReactionRecords.Counts(0, 1) && store.targets[post] == counts;
  }
}
