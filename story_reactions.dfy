/** `updateReactionStory`: a "like" or "disLike" on a story's embedded reactions. */
module StoryReactions {
  import opened Common
  import opened EmbeddedReactions

  datatype StoryError = StoryNotFound

  /** Looks the story up in `stories`, then applies the toggle that `data` names; any other
      `data` value leaves the story as it was and still succeeds. */
  method UpdateReactionStory(stories: map<DocId, Reactions>, currentUserId: UserId,
                             storyId: DocId, data: string) returns (r: Outcome<StoryError>)
    modifies if storyId in stories then {stories[storyId]} else {}
    ensures r == if storyId in stories then Pass else Fail(StoryNotFound)
    ensures storyId in stories ==>
      stories[storyId].Value() ==
        if data == "like" then PressedLike(old(stories[storyId].Value()), currentUserId)
        else if data == "disLike" then PressedDisLike(old(stories[storyId].Value()), currentUserId)
        else old(stories[storyId].Value())
    ensures storyId in stories && old(Consistent(stories[storyId].Value())) ==>
      Consistent(stories[storyId].Value())
  {
    if storyId !in stories {
      return Fail(StoryNotFound);
    }
    var story := stories[storyId];
    if data == "like" {
      story.PressLike(currentUserId);
    }
    if data == "disLike" {
      story.PressDisLike(currentUserId);
    }
    return Pass;
  }
}
