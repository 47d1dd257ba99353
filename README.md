# Relationship and reaction state of a social publishing backend

This project models the stateful core of a Node/Mongoose backend for stories, comments
and friendships, and proves properties of the model in Dafny. The core has three parts.

- **Friend requests** (`controllers/friend.controller.js`). A collection of `Friend`
  records `{from, to, status}`, where status is pending, accepted or declined. Each user
  also has a `friendCount`. Four handlers change this state: `sendFriendRequest`,
  `reactFriendRequest`, `cancelFriendRequest` and `removeFriend`. The
  `calculateFriendCount` recount rewrites a user's `friendCount`. The list handlers
  project the records onto "the other user's id".
  Module `Friends` models this part. Each handler is a pure transition function on the
  collection (`Send`, `React`, `Cancel`, `Remove`). Class `FriendStore` holds the same
  state in fields, and each of its methods is proved equal to its transition function.
  The invariant is `Valid`: at most one record per unordered pair of users, and every
  stored `friendCount` equals the number of accepted records that touch that user. Every
  handler preserves it.
- **Reaction records** (`controllers/reaction.controller.js`). `saveReaction` keeps at
  most one `Reaction` per (targetType, targetId, author). A missing reaction is created,
  the same emoji again deletes it, and a different emoji is overwritten in place.
  `calculateReaction` then recounts the target's likes and dislikes and writes them to
  the target. Module `ReactionRecords` models this part. `Saved` is the toggle, and
  `ReactionStore` holds the records and the targets' `reactions` fields.
- **Embedded reaction arrays** (`updateReactionStory` in `controllers/story.controller.js`
  and `updateReactionComment` in `controllers/comment.controller.js`). The document holds
  the two author-id arrays `authorIdOfLike` and `authorIdOfDisLike` and the two counters
  `like` and `disLike`. A "like" or "disLike" request changes them in place with
  `push`, `splice` and `+=`/`-=`. Both controllers run the same code, so class
  `EmbeddedReactions.Reactions` holds it once. Modules `StoryReactions` and
  `CommentReactions` model the two handlers: the lookup, the not-found error and the
  dispatch on `data`. The invariant is `Consistent`: each counter equals the length of its
  array, neither array has duplicates, and the two arrays are disjoint.

Module `Common` holds the toggle rule `Toggled` that both reaction styles follow. Module
`Scenarios` holds three call sequences, verified against the handlers' contracts alone:
- declining a friend request, sending it again in the other direction, and accepting it;
- a like, a dislike by a second user, then a flip and a withdraw on a story;
- a like then a flip to dislike on a post's reaction record.

Where the code differs from what it evidently means, the model follows the code.
- `sendFriendRequest` does not reject a request to oneself.
- The guard `mongoose.model(targetType).find(targetId)` in `saveReaction`
  (`controllers/reaction.controller.js:42-44`) tests the result of a `find` query. The
  model assumes this query resolves to a list, which is always truthy, so the guard
  never fires. The model therefore has no "target not found" path for `saveReaction`.
  Writing the recount onto a missing target changes nothing. See "## Left out" for this
  assumption.
- `calculateReaction` matches records on `targetId` alone, whatever their `targetType`.
  The model does the same.
- `Friend.findOne` returns the first matching record in store order. The model does the
  same (`FindFirst`, `Find`).

Three places are defects, not intended behaviour. For these the model keeps an
as-written version next to the corrected one; see "## Findings".

## Model

| member | source | states |
|---|---|---|
| `Friends.FindFirst` | controllers/friend.controller.js:28-33 | `findOne` gives the first record matching the filter, or none when no record matches |
| `Friends.Recounted` | controllers/friend.controller.js:7-18 | `calculateFriendCount(u)` sets an existing user's `friendCount` to the number of accepted records with `u` at either end; other users and unknown ids are unchanged |
| `Friends.OtherSides` | controllers/friend.controller.js:221-224 | the id projection has one id per record; for a record touching the current user it is the other endpoint, and it equals the current user only for a self-record |
| `Friends.SendStepFor` | controllers/friend.controller.js:51-86 | an existing record may be overwritten only when it is declined; pending is refused with "sent" or "received" depending on who sent it; accepted is refused as "already friend" |
| `Friends.PendingFallsToDefault` | controllers/friend.controller.js:51-86 | as written, a pending record misses the `"pendind"` case and reaches the default "Friend status undefined" error |
| `Friends.SendStepAsWrittenAgrees` | controllers/friend.controller.js:51-86 | the written switch and the intended one agree on accepted and declined records, and both refuse a pending record |
| `Friends.AcceptNeverRecountsAsWritten` | controllers/friend.controller.js:272-289 | as written, the assigned status is the body object, which never equals "accepted", so accepting never triggers the recount |
| `Friends.CountReplace` | controllers/friend.controller.js:8-16 | rewriting one record changes a user's accepted count by exactly the difference of the old and new weights |
| `Friends.CountDelete` | controllers/friend.controller.js:8-16 | deleting one record lowers a user's accepted count by that record's weight |
| `Friends.PairRecordsUnique` | controllers/friend.controller.js:28-33 | under the invariant, a pair's records are exactly the one `findOne` finds with the two-direction filter, or none |
| `Friends.SendKeepsValid` | controllers/friend.controller.js:20-88 | `sendFriendRequest` keeps one record per pair and leaves every `friendCount` unchanged and correct |
| `Friends.SendOutcome` | controllers/friend.controller.js:20-88 | an unknown target fails with nothing changed; with no record for the pair it creates exactly one pending record from sender to target; a declined record is overwritten into that record and the pair still has one; pending or accepted is refused with nothing changed; other pairs' records are untouched |
| `Friends.SendCreates` | controllers/friend.controller.js:34-40 | with no record for the pair, afterwards the pair has exactly the new pending record and the other pairs' records are unchanged |
| `Friends.SendOverwrites` | controllers/friend.controller.js:71-75 | a declined record is replaced in place by the pending record from sender to target, and it stays the pair's only record |
| `Friends.ReactKeepsValid` | controllers/friend.controller.js:269-299 | `reactFriendRequest` keeps one record per pair and every `friendCount` correct |
| `Friends.ReactOutcome` | controllers/friend.controller.js:274-289 | responding succeeds if and only if there is a pending record from the requester to the current user; otherwise it fails with "Request not found" and nothing changes; on success the record carries the decision and stays the pair's only record, other pairs are untouched, declining keeps all counts, and accepting raises both users' counts by one; every other user's count is unchanged |
| `Friends.CancelKeepsValid` | controllers/friend.controller.js:301-323 | `cancelFriendRequest` keeps one record per pair and leaves every `friendCount` unchanged |
| `Friends.CancelOutcome` | controllers/friend.controller.js:305-313 | cancelling succeeds if and only if the current user has a pending request to the target; that record is deleted, and nothing else changes |
| `Friends.RemoveKeepsValid` | controllers/friend.controller.js:325-359 | `removeFriend` keeps one record per pair and every `friendCount` correct |
| `Friends.RemoveOutcome` | controllers/friend.controller.js:330-349 | removing succeeds if and only if the pair's record is accepted, in either direction; it is deleted, other pairs are untouched, both users' counts drop by one, and every other user's count is unchanged |
| `Friends.CountAccepted` | controllers/friend.controller.js:8-16 | definition of the `countDocuments` filter (accepted, either end); its properties are stated by `CountReplace`, `CountDelete` and `Recounted` |
| `Friends.SendStepAsWritten` | controllers/friend.controller.js:51-86 | definition of the switch as written, with the `"pendind"` label; its properties are stated by `PendingFallsToDefault` and `SendStepAsWrittenAgrees` |
| `Friends.RecountsAsWritten` | controllers/friend.controller.js:272-286 | definition of the test at line 286 applied to the assigned body object; its property is stated by `AcceptNeverRecountsAsWritten` |
| `Friends.Send` | controllers/friend.controller.js:20-88 | definition of `sendFriendRequest` as a transition; its properties are stated by `SendKeepsValid`, `SendOutcome`, `SendCreates` and `SendOverwrites` |
| `Friends.React` | controllers/friend.controller.js:269-299 | definition of `reactFriendRequest` as a transition; its properties are stated by `ReactKeepsValid` and `ReactOutcome` |
| `Friends.Cancel` | controllers/friend.controller.js:301-323 | definition of `cancelFriendRequest` as a transition; its properties are stated by `CancelKeepsValid` and `CancelOutcome` |
| `Friends.Remove` | controllers/friend.controller.js:325-359 | definition of `removeFriend` as a transition; its properties are stated by `RemoveKeepsValid` and `RemoveOutcome` |
| `Friends.FriendStore.CalculateFriendCount` | controllers/friend.controller.js:7-18 | the method writes the recount into the user's field exactly as `Recounted` says |
| `Friends.FriendStore.SendFriendRequest` | controllers/friend.controller.js:20-88 | the in-place handler produces the state and response of `Send` and preserves `Valid` |
| `Friends.FriendStore.ReactFriendRequest` | controllers/friend.controller.js:269-299 | the in-place handler produces the state and response of `React` and preserves `Valid` |
| `Friends.FriendStore.CancelFriendRequest` | controllers/friend.controller.js:301-323 | the in-place handler produces the state and response of `Cancel` and preserves `Valid` |
| `Friends.FriendStore.RemoveFriend` | controllers/friend.controller.js:325-359 | the in-place handler produces the state and response of `Remove` and preserves `Valid` |
| `Common.Toggled` | controllers/reaction.controller.js:52-68 | the toggle rule: no reaction is left exactly when the requested emoji was already held; otherwise the requested emoji is held |
| `Common.ToggledTwice` | controllers/reaction.controller.js:61-63 | starting from no reaction or from the same emoji, toggling the same emoji twice returns to the starting state |
| `Common.RemoveFirst` | controllers/story.controller.js:323-324 | removing an id shortens the array by one when it is present, leaves it unchanged when absent, and removes exactly one occurrence of that id (as multisets) |
| `ReactionRecords.Find` | controllers/reaction.controller.js:46-50 | `findOne({targetType, targetId, author})` gives the first record with that key, or none when there is none |
| `ReactionRecords.RecountAsWrittenIsZero` | controllers/reaction.controller.js:8-35 | as written, the aggregation reports 0 likes and 0 dislikes for every store and target |
| `ReactionRecords.RecountAsWrittenMissesALike` | controllers/reaction.controller.js:16-32 | a store with one like on a post: the intended recount gives {1, 0}, the written one {0, 0} |
| `ReactionRecords.SavedKeepsOneReactionPerKey` | controllers/reaction.controller.js:46-69 | `saveReaction` keeps at most one record per (targetType, targetId, author) |
| `ReactionRecords.SavedRecordOfKey` | controllers/reaction.controller.js:52-68 | afterwards the author's emoji on the target follows the toggle rule; the key has exactly one record holding the requested emoji (created or flipped in place), or none after a repeat |
| `ReactionRecords.FindAfterSave` | controllers/reaction.controller.js:46-68 | after the toggle, `findOne` for the same key lands on the appended record, finds nothing after a delete, or lands on the same position after an overwrite |
| `ReactionRecords.SavedKeepsOtherRecords` | controllers/reaction.controller.js:46-50 | records of other authors or other targets are unchanged, in the same order |
| `ReactionRecords.SavedTwiceFromNoReaction` | controllers/reaction.controller.js:52-63 | starting from no reaction, submitting the same emoji twice restores the store exactly |
| `ReactionRecords.SavedCountDelta` | controllers/reaction.controller.js:8-35 | the recount of a document moves by the toggle's signed delta (minus the old emoji, plus the new one) and is unchanged for other documents |
| `ReactionRecords.SavedRecount` | controllers/reaction.controller.js:8-35 | spelled out per case: creating adds one to the emoji's counter, repeating removes one, flipping moves one from the old counter to the new; other documents keep their counts |
| `ReactionRecords.Saved` | controllers/reaction.controller.js:46-69 | definition of the `saveReaction` toggle on the records; its properties are stated by `SavedKeepsOneReactionPerKey`, `SavedRecordOfKey`, `FindAfterSave`, `SavedKeepsOtherRecords`, `SavedTwiceFromNoReaction`, `SavedCountDelta` and `SavedRecount` |
| `ReactionRecords.CountOf` | controllers/reaction.controller.js:9-28 | definition of the intended `$match` on `targetId` and conditional `$sum` for one emoji; its properties are stated by `SavedCountDelta` and `RecountAsWrittenMissesALike` |
| `ReactionRecords.Recount` | controllers/reaction.controller.js:8-35 | definition of the intended `calculateReaction` counts, with 0 when no record matches; its properties are stated by `SavedRecount` and `ReactionStore.CalculateReaction` |
| `ReactionRecords.CountAsWritten` | controllers/reaction.controller.js:16-25 | definition of the written conditional sum, which compares the literal `"emoji"`; its property is stated by `RecountAsWrittenIsZero` |
| `ReactionRecords.RecountAsWritten` | controllers/reaction.controller.js:8-35 | definition of the written `calculateReaction` counts; its properties are stated by `RecountAsWrittenIsZero` and `RecountAsWrittenMissesALike` |
| `ReactionRecords.ReactionStore.CalculateReaction` | controllers/reaction.controller.js:8-35 | returns the intended recount of the document's records and writes it into the target's `reactions` field when the target exists |
| `ReactionRecords.ReactionStore.SaveReaction` | controllers/reaction.controller.js:37-74 | the records become `Saved(...)`, the returned counts are the recount, only that target's field changes, and at most one record per key is kept. Per target: a target with another id that agreed with its recount still agrees; a target of the other kind with the same id keeps its old stored counts; the whole map stays in agreement when no other kind of target shares the id |
| `EmbeddedReactions.DisLikeMirrorsLike` | controllers/story.controller.js:341-366 | "disLike" is exactly "like" with the like and dislike sides exchanged |
| `EmbeddedReactions.PressedLikeKeepsConsistent` | controllers/story.controller.js:314-340 | from a consistent document a "like" leaves it consistent; the author's reaction follows the toggle rule (added, withdrawn, or flipped from dislike), so the author is in at most one array; every other author's reaction is unchanged |
| `EmbeddedReactions.PressedDisLikeKeepsConsistent` | controllers/story.controller.js:341-366 | the same for "disLike" |
| `EmbeddedReactions.LikeTwiceFromNeither` | controllers/story.controller.js:321-339 | an author in neither array who likes twice restores the document exactly |
| `EmbeddedReactions.LikeTwiceFromLiked` | controllers/story.controller.js:321-339 | an author who already likes and likes twice restores both counters, the dislikes and the set of likers |
| `EmbeddedReactions.DisLikeTwiceFromNeither` | controllers/story.controller.js:347-365 | an author in neither array who dislikes twice restores the document exactly |
| `EmbeddedReactions.PressedLike` | controllers/story.controller.js:314-340 | definition of the "like" branch on the subdocument's value; its properties are stated by `PressedLikeKeepsConsistent`, `LikeTwiceFromNeither` and `LikeTwiceFromLiked` |
| `EmbeddedReactions.PressedDisLike` | controllers/story.controller.js:341-366 | definition of the "disLike" branch on the subdocument's value; its properties are stated by `DisLikeMirrorsLike`, `PressedDisLikeKeepsConsistent` and `DisLikeTwiceFromNeither` |
| `EmbeddedReactions.Reactions.PressLike` | controllers/story.controller.js:314-340 | the in-place `-=`/`splice` and `+=`/`push` steps produce `PressedLike` of the old document and preserve `Consistent` |
| `EmbeddedReactions.Reactions.PressDisLike` | controllers/story.controller.js:341-366 | the in-place steps produce `PressedDisLike` of the old document and preserve `Consistent` |
| `EmbeddedReactions.IndexOf` | controllers/story.controller.js:323 | `indexOf` returns -1 exactly when the id is absent, and otherwise the first position holding it |
| `EmbeddedReactions.SpliceOut` | controllers/story.controller.js:323-324 | `splice(indexOf(id), 1)` removes exactly the first occurrence of the id |
| `StoryReactions.UpdateReactionStory` | controllers/story.controller.js:297-368 | a missing story fails with "Story is not found"; "like" and "disLike" apply their toggles; any other `data` leaves the story unchanged; consistency is preserved |
| `CommentReactions.UpdateReactionComment` | controllers/comment.controller.js:78-150 | a missing comment fails with "Comment is not found"; "like" and "disLike" apply their toggles (the `.equals` test at line 127 is the same membership test); any other `data` leaves the comment unchanged; consistency is preserved |

## Findings

| source | as written | input that shows it | evidently intended | confidence | as-written member | corrected member |
|---|---|---|---|---|---|---|
| controllers/friend.controller.js:53 | the case label is `"pendind"`, so a pending record falls to the default error "Friend status undefined" | a second request while one is pending between the two users | `case "pending"`, refused with "You have sent / received a request" | high, not executed | `Friends.PendingFallsToDefault` | `Friends.SendStepFor` |
| controllers/friend.controller.js:272 | `const status = req.body` assigns the whole body object to `friend.status`, so `friend.status === "accepted"` at line 286 never holds and no `friendCount` is recounted | body `{status: "accepted"}` | `req.body.status`, with both users recounted on acceptance | medium, not executed | `Friends.AcceptNeverRecountsAsWritten` | `Friends.ReactOutcome` |
| controllers/reaction.controller.js:18 | `$eq: ["emoji", "like"]` (and `"dislike"` at line 23) compares two literal strings, so both sums are always 0 | one like record on a post, then a recount of that post | `$eq: ["$emoji", "like"]`, counting the records' emoji field | high, not executed | `ReactionRecords.RecountAsWrittenIsZero` | `ReactionRecords.SavedRecount` |

The rest of the model uses the corrected definitions: `FriendStore.SendFriendRequest`
switches with `SendStepFor`, `FriendStore.ReactFriendRequest` reads the body's `status`
(so `ReactOutcome` proves that accepting raises both counts),
and `ReactionStore` recounts with `Recount`.

## Left out

- HTTP routing, request validation, `catchAsync`, `sendResponse` and authentication are
  left out. The route's allowed values become types (`Emoji`, `TargetType`) or a
  precondition (`ReactFriendRequest` takes only accepted or declined).
- Concurrency is left out. Each handler is one atomic step; the source has no versioning
  or locking.
- Persistence details are left out. When `reactFriendRequest` deletes the record
  (line 281) and then saves it again (line 284), the model treats this as an in-place
  update of that record's status. What Mongoose does when a deleted document is saved
  is not modelled. The unawaited `story.save()` and `comment.save()` are modelled as
  completed writes.
- The list handlers are modelled only through their id projection (`OtherSides`). Their
  `Friend.find` queries, regex name filter and pagination are query plumbing. Their
  `friendship` join has no coherent behaviour to model. In the received and sent lists
  (lines 128 and 189) it refers to a `friendList` that is not defined there. In the friend
  list, `friendList` is a single `findOne` result (line 216), and lines 221 and 250 call
  `.map` and `.find` on it.
- The Mongoose schemas are not part of this model. `models/User.js` declares no
  `friendCount`. `models/Story.js` declares `reactions.like`/`dislike` but not the
  author arrays or `disLike`. The model follows the fields that the controllers read and
  write.
- The route for reactions validates a body field `reaction` holding `Like`/`Dislike`,
  while the controller reads `emoji`. The model takes the emoji the controller uses.
- The friend routes name the path parameter `:userId` (`routes/friend.api.js:58,73,87`),
  while the handlers read `req.params.id` (`controllers/friend.controller.js:271,303,328`).
  The model takes the id the handlers mean: the other user of the request or friendship.
- `models/Comment.js:15-18` has the comment's reaction field commented out. So
  `comment.reactions.authorIdOfLike` (`controllers/comment.controller.js:96`) reads a path
  the schema does not declare, and the schema drops the `reactions` counts that
  `calculateReaction` writes to a comment. The model treats the fields the controllers
  read and write as stored.
- The existence guard of `saveReaction` (`controllers/reaction.controller.js:42-44`) passes
  a bare id as the `find` filter. The model assumes the query still resolves to a list of
  documents, so the guard never rejects. This is what Mongoose versions that ignore a
  non-object filter do. If the Mongoose version in use rejects a non-object filter (an
  `ObjectParameterError`), every `saveReaction` fails at line 42 before touching the
  store. The model does not capture that failure.
- `mongoose.model(targetType)` dynamic dispatch is replaced by the closed datatype
  `TargetType` (`Post`, `Comment`).
- Subscriptions, weekly statistics, auth, user profiles and plain content CRUD are
  outside the modelled core.
- Identities are natural numbers, compared only for equality (Mongo ObjectIds).
  The embedded counters are unbounded integers; JavaScript numbers do not overflow at
  these sizes.
- `ReactionRecords.ReactionStore.SaveReaction`: the claim that stored counts agree with
  the recounts is proved only when no target of the other kind has the same id. This is
  because the recount matches on `targetId` alone. The target of the other kind keeps its
  old stored counts, and the contract states this per target. Under the `find` assumption
  above, the existence guard cannot reject a reaction whose target is missing.
