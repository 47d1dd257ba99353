/** `saveReaction` and `calculateReaction`: reactions kept as separate records, one per
    (targetType, targetId, author), with the like/dislike tally of a target recounted
    from the records after every toggle. */
module ReactionRecords {
  import opened Common

  /** The kinds of document a reaction record may point at. */
  datatype TargetType = Post | Comment

  datatype Reaction = Reaction(targetType: TargetType, targetId: DocId, author: UserId, emoji: Emoji)

  /** What identifies a reaction: who reacted to which document. */
  datatype Key = Key(targetType: TargetType, targetId: DocId, author: UserId)

  /** The `reactions` field the recount writes onto the target document. */
  datatype Counts = Counts(like: nat, dislike: nat)

  datatype Target = Target(targetType: TargetType, targetId: DocId)

  function KeyOf(r: Reaction): Key
  {
    Key(r.targetType, r.targetId, r.author)
  }

  /** At most one record per key: the invariant `saveReaction` maintains. */
  predicate OneReactionPerKey(rs: seq<Reaction>)
  {
    forall i, j :: 0 <= i < j < |rs| ==> KeyOf(rs[i]) != KeyOf(rs[j])
  }

  /** `Reaction.findOne({targetType, targetId, author})`: the first record with key `k`. */
  function Find(rs: seq<Reaction>, k: Key): (r: Option<nat>)
    ensures r == None <==> forall j :: 0 <= j < |rs| ==> KeyOf(rs[j]) != k
    ensures r.Some? ==> r.value < |rs| && KeyOf(rs[r.value]) == k &&
                        forall j :: 0 <= j < r.value ==> KeyOf(rs[j]) != k
  {
    if rs == [] then None
    else if KeyOf(rs[0]) == k then Some(0)
    else match Find(rs[1..], k)
      case None => None
      case Some(j) => Some(j + 1)
  }

  /** The emoji `k.author` currently holds on the target, if any. */
  function EmojiOf(rs: seq<Reaction>, k: Key): Option<Emoji>
  {
    match Find(rs, k)
    case None => None
    case Some(i) => Some(rs[i].emoji)
  }

  /** The records with key `k`, in store order. */
  function WithKey(rs: seq<Reaction>, k: Key): seq<Reaction>
  {
    if rs == [] then []
    else WithKey(rs[..|rs| - 1], k) + (if KeyOf(rs[|rs| - 1]) == k then [rs[|rs| - 1]] else [])
  }

  /** The records whose key is not `k`, in store order. */
  function WithoutKey(rs: seq<Reaction>, k: Key): seq<Reaction>
  {
    if rs == [] then []
    else WithoutKey(rs[..|rs| - 1], k) + (if KeyOf(rs[|rs| - 1]) != k then [rs[|rs| - 1]] else [])
  }

  /** The store after `saveReaction` by `k.author` with `emoji`: create the record when there
      is none, delete it when it already holds `emoji`, otherwise overwrite its emoji. */
  function Saved(rs: seq<Reaction>, k: Key, emoji: Emoji): seq<Reaction>
  {
    match Find(rs, k)
    case None => rs + [Reaction(k.targetType, k.targetId, k.author, emoji)]
    case Some(i) =>
      if rs[i].emoji == emoji then rs[..i] + rs[i + 1..]
      else rs[i := rs[i].(emoji := emoji)]
  }

  /** The number of records on document `id` carrying `e` (the `$match` on `targetId`,
      whatever the target type, then the conditional sum). */
  function CountOf(rs: seq<Reaction>, id: DocId, e: Emoji): nat
  {
    if rs == [] then 0
    else CountOf(rs[..|rs| - 1], id, e) + Weight(rs[|rs| - 1], id, e)
  }

  function Weight(r: Reaction, id: DocId, e: Emoji): nat
  {
    if r.targetId == id && r.emoji == e then 1 else 0
  }

  /** `calculateReaction` as intended: likes and dislikes of the records on `id`. */
  function Recount(rs: seq<Reaction>, id: DocId): Counts
  {
    Counts(CountOf(rs, id, Like), CountOf(rs, id, Dislike))
  }

  // ----- calculateReaction as written -----

  /** The string an emoji is stored as. */
  function EmojiLabel(e: Emoji): string
  {
    match e
    case Like => "like"
    case Dislike => "dislike"
  }

  /** `$cond: [{ $eq: ["emoji", label] }, 1, 0]`: without a `$`, "emoji" is the literal
      string, not the record's field, so the record itself plays no part. */
  function WeightAsWritten(r: Reaction, id: DocId, e: Emoji): nat
  {
    if r.targetId == id && "emoji" == EmojiLabel(e) then 1 else 0
  }

  function CountAsWritten(rs: seq<Reaction>, id: DocId, e: Emoji): nat
  {
    if rs == [] then 0
    else CountAsWritten(rs[..|rs| - 1], id, e) + WeightAsWritten(rs[|rs| - 1], id, e)
  }

  function RecountAsWritten(rs: seq<Reaction>, id: DocId): Counts
  {
    Counts(CountAsWritten(rs, id, Like), CountAsWritten(rs, id, Dislike))
  }

  /** As written, the recount reports 0 likes and 0 dislikes whatever the records are. */
  lemma {:induction false} RecountAsWrittenIsZero(rs: seq<Reaction>, id: DocId)
    ensures RecountAsWritten(rs, id) == Counts(0, 0)
  {
    if rs != [] {
      RecountAsWrittenIsZero(rs[..|rs| - 1], id);
      assert "emoji" != EmojiLabel(Like) && "emoji" != EmojiLabel(Dislike) by {
        assert "emoji"[0] != "like"[0] && "emoji"[0] != "dislike"[0];
      }
    }
  }

  /** One like on a post: the intended recount sees it, the written one does not. */
  lemma RecountAsWrittenMissesALike()
    ensures Recount([Reaction(Post, 1, 7, Like)], 1) == Counts(1, 0)
    ensures RecountAsWritten([Reaction(Post, 1, 7, Like)], 1) == Counts(0, 0)
  {
    var rs := [Reaction(Post, 1, 7, Like)];
    assert rs[..0] == [];
    RecountAsWrittenIsZero(rs, 1);
  }

  // ----- properties of the toggle -----

  lemma {:induction false} CountConcat(a: seq<Reaction>, b: seq<Reaction>, id: DocId, e: Emoji)
    ensures CountOf(a + b, id, e) == CountOf(a, id, e) + CountOf(b, id, e)
  {
    if b != [] {
      assert (a + b)[..|a + b| - 1] == a + b[..|b| - 1];
      CountConcat(a, b[..|b| - 1], id, e);
    } else {
      assert a + b == a;
    }
  }

  lemma {:induction false} WithoutConcat(a: seq<Reaction>, b: seq<Reaction>, k: Key)
    ensures WithoutKey(a + b, k) == WithoutKey(a, k) + WithoutKey(b, k)
  {
    if b != [] {
      assert (a + b)[..|a + b| - 1] == a + b[..|b| - 1];
      WithoutConcat(a, b[..|b| - 1], k);
    } else {
      assert a + b == a;
    }
  }

  lemma {:induction false} WithKeyAbsent(rs: seq<Reaction>, k: Key)
    requires forall j :: 0 <= j < |rs| ==> KeyOf(rs[j]) != k
    ensures WithKey(rs, k) == []
  {
    if rs != [] { WithKeyAbsent(rs[..|rs| - 1], k); }
  }

  /** Under the invariant, the records of key `k` are exactly the one `Find` locates. */
  lemma {:induction false} WithKeyUnique(rs: seq<Reaction>, k: Key)
    requires OneReactionPerKey(rs)
    ensures WithKey(rs, k) == match Find(rs, k) case None => [] case Some(i) => [rs[i]]
  {
    if Find(rs, k) == None {
      WithKeyAbsent(rs, k);
    } else {
      var i := Find(rs, k).value;
      var n := |rs|;
      var front := rs[..n - 1];
      if i == n - 1 {
        WithKeyAbsent(front, k);
      } else {
        assert OneReactionPerKey(front);
        assert Find(front, k) == Some(i) by {
          assert KeyOf(front[i]) == k;
          assert forall j :: 0 <= j < i ==> KeyOf(front[j]) != k;
        }
        WithKeyUnique(front, k);
      }
    }
  }

  lemma SplitAt(rs: seq<Reaction>, i: nat, x: Reaction)
    requires i < |rs|
    ensures rs == rs[..i] + [rs[i]] + rs[i + 1..]
    ensures rs[i := x] == rs[..i] + [x] + rs[i + 1..]
  {
  }

  /** `saveReaction` keeps at most one record per key. */
  lemma SavedKeepsOneReactionPerKey(rs: seq<Reaction>, k: Key, emoji: Emoji)
    requires OneReactionPerKey(rs)
    ensures OneReactionPerKey(Saved(rs, k, emoji))
  {
    var s := Saved(rs, k, emoji);
    match Find(rs, k)
    case None =>
      forall i, j | 0 <= i < j < |s| ensures KeyOf(s[i]) != KeyOf(s[j]) {
        if j == |rs| { assert KeyOf(s[i]) == KeyOf(rs[i]); }
      }
    case Some(i) =>
      if rs[i].emoji == emoji {
        forall a, b | 0 <= a < b < |s| ensures KeyOf(s[a]) != KeyOf(s[b]) {
          var a' := if a < i then a else a + 1;
          var b' := if b < i then b else b + 1;
          assert s[a] == rs[a'] && s[b] == rs[b'];
        }
      } else {
        forall a, b | 0 <= a < b < |s| ensures KeyOf(s[a]) != KeyOf(s[b]) {
          assert KeyOf(s[a]) == KeyOf(rs[a]) && KeyOf(s[b]) == KeyOf(rs[b]);
        }
      }
  }

  /** Where `findOne` lands after the toggle: on the appended record, on nothing after a
      delete, or on the same position after an overwrite. */
  lemma FindAfterSave(rs: seq<Reaction>, k: Key, emoji: Emoji)
    requires OneReactionPerKey(rs)
    ensures Find(Saved(rs, k, emoji), k) == match Find(rs, k)
      case None => Some(|rs|)
      case Some(i) => if rs[i].emoji == emoji then None else Some(i)
  {
    match Find(rs, k)
    case None => FindAfterCreate(rs, k, emoji);
    case Some(i) =>
      if rs[i].emoji == emoji { FindAfterDelete(rs, k, i); } else { FindAfterOverwrite(rs, k, i, emoji); }
  }

  lemma {:induction false} FindAfterCreate(rs: seq<Reaction>, k: Key, emoji: Emoji)
    requires Find(rs, k) == None
    ensures Find(rs + [Reaction(k.targetType, k.targetId, k.author, emoji)], k) == Some(|rs|)
  {
    var n := Reaction(k.targetType, k.targetId, k.author, emoji);
    if rs != [] {
      assert KeyOf(rs[0]) != k && Find(rs[1..], k) == None;
      FindAfterCreate(rs[1..], k, emoji);
      assert (rs + [n])[1..] == rs[1..] + [n];
    }
  }

  lemma FindAfterDelete(rs: seq<Reaction>, k: Key, i: nat)
    requires OneReactionPerKey(rs) && Find(rs, k) == Some(i)
    ensures Find(rs[..i] + rs[i + 1..], k) == None
  {
    var s := rs[..i] + rs[i + 1..];
    forall j | 0 <= j < |s| ensures KeyOf(s[j]) != k {
      assert s[j] == rs[if j < i then j else j + 1];
    }
  }

  lemma FindAfterOverwrite(rs: seq<Reaction>, k: Key, i: nat, emoji: Emoji)
    requires Find(rs, k) == Some(i)
    ensures Find(rs[i := rs[i].(emoji := emoji)], k) == Some(i)
  {
    var s := rs[i := rs[i].(emoji := emoji)];
    assert KeyOf(s[i]) == k;
    assert forall j :: 0 <= j < i ==> s[j] == rs[j];
  }

  /** After the toggle, key `k` has exactly the record the toggle rule asks for: one record
      with `emoji` (created or flipped in place) or, on a repeated emoji, none. */
  lemma SavedRecordOfKey(rs: seq<Reaction>, k: Key, emoji: Emoji)
    requires OneReactionPerKey(rs)
    ensures EmojiOf(Saved(rs, k, emoji), k) == Toggled(EmojiOf(rs, k), emoji)
    ensures WithKey(Saved(rs, k, emoji), k) ==
      if Toggled(EmojiOf(rs, k), emoji) == None then []
      else [Reaction(k.targetType, k.targetId, k.author, emoji)]
  {
    SavedKeepsOneReactionPerKey(rs, k, emoji);
    WithKeyUnique(Saved(rs, k, emoji), k);
    FindAfterSave(rs, k, emoji);
  }

  /** The toggle leaves every record of another author or another target as it was, in
      the same order. */
  lemma SavedKeepsOtherRecords(rs: seq<Reaction>, k: Key, emoji: Emoji)
    ensures WithoutKey(Saved(rs, k, emoji), k) == WithoutKey(rs, k)
  {
    var n := Reaction(k.targetType, k.targetId, k.author, emoji);
    match Find(rs, k)
    case None =>
      WithoutConcat(rs, [n], k);
      assert WithoutKey([n], k) == [] by { assert [n][..0] == []; }
    case Some(i) =>
      var x := rs[i].(emoji := emoji);
      SplitAt(rs, i, x);
      WithoutConcat(rs[..i] + [rs[i]], rs[i + 1..], k);
      WithoutConcat(rs[..i], [rs[i]], k);
      assert WithoutKey([rs[i]], k) == [] by { assert [rs[i]][..0] == []; }
      if rs[i].emoji == emoji {
        WithoutConcat(rs[..i], rs[i + 1..], k);
      } else {
        WithoutConcat(rs[..i] + [x], rs[i + 1..], k);
        WithoutConcat(rs[..i], [x], k);
        assert WithoutKey([x], k) == [] by { assert [x][..0] == []; }
      }
  }

  /** Reacting twice with the same emoji, starting from no reaction, restores the store. */
  lemma SavedTwiceFromNoReaction(rs: seq<Reaction>, k: Key, emoji: Emoji)
    requires Find(rs, k) == None
    ensures Saved(Saved(rs, k, emoji), k, emoji) == rs
  {
    var s := Saved(rs, k, emoji);
    FindAfterCreate(rs, k, emoji);
    assert s[..|rs|] == rs;
  }

  function Indicator(b: bool): nat
  {
    if b then 1 else 0
  }

  /** The signed delta of the toggle: the counter of document `id` for `e` loses the old
      reaction of `k.author` and gains the new one; other documents are unaffected. */
  lemma SavedCountDelta(rs: seq<Reaction>, k: Key, emoji: Emoji, id: DocId, e: Emoji)
    ensures CountOf(Saved(rs, k, emoji), id, e) + Indicator(k.targetId == id && EmojiOf(rs, k) == Some(e))
         == CountOf(rs, id, e) + Indicator(k.targetId == id && Toggled(EmojiOf(rs, k), emoji) == Some(e))
  {
    var n := Reaction(k.targetType, k.targetId, k.author, emoji);
    match Find(rs, k)
    case None =>
      CountConcat(rs, [n], id, e);
      assert [n][..0] == [];
    case Some(i) =>
      var x := rs[i].(emoji := emoji);
      SplitAt(rs, i, x);
      CountConcat(rs[..i] + [rs[i]], rs[i + 1..], id, e);
      CountConcat(rs[..i], [rs[i]], id, e);
      assert [rs[i]][..0] == [];
      assert KeyOf(rs[i]) == k;
      if rs[i].emoji == emoji {
        CountConcat(rs[..i], rs[i + 1..], id, e);
      } else {
        CountConcat(rs[..i] + [x], rs[i + 1..], id, e);
        CountConcat(rs[..i], [x], id, e);
        assert [x][..0] == [];
      }
  }

  /** Spelled out for the two counters of the reacted document. */
  lemma SavedRecount(rs: seq<Reaction>, k: Key, emoji: Emoji, id: DocId)
    ensures id != k.targetId ==> Recount(Saved(rs, k, emoji), id) == Recount(rs, id)
    ensures id == k.targetId && EmojiOf(rs, k) == None ==>
      Recount(Saved(rs, k, emoji), id) ==
        if emoji == Like then Recount(rs, id).(like := Recount(rs, id).like + 1)
        else Recount(rs, id).(dislike := Recount(rs, id).dislike + 1)
    ensures id == k.targetId && EmojiOf(rs, k) == Some(emoji) ==>
      if emoji == Like then Counts(Recount(Saved(rs, k, emoji), id).like + 1,
                                   Recount(Saved(rs, k, emoji), id).dislike) == Recount(rs, id)
      else Counts(Recount(Saved(rs, k, emoji), id).like,
                  Recount(Saved(rs, k, emoji), id).dislike + 1) == Recount(rs, id)
    ensures id == k.targetId && EmojiOf(rs, k).Some? && EmojiOf(rs, k) != Some(emoji) ==>
      if emoji == Like then Counts(Recount(Saved(rs, k, emoji), id).like,
                                   Recount(Saved(rs, k, emoji), id).dislike + 1) ==
                            Counts(Recount(rs, id).like + 1, Recount(rs, id).dislike)
      else Counts(Recount(Saved(rs, k, emoji), id).like + 1,
                  Recount(Saved(rs, k, emoji), id).dislike) ==
           Counts(Recount(rs, id).like, Recount(rs, id).dislike + 1)
  {
    SavedCountDelta(rs, k, emoji, id, Like);
    SavedCountDelta(rs, k, emoji, id, Dislike);
  }

  /** The reaction records and the `reactions` field of every post and comment. */
  class ReactionStore {
    var reactions: seq<Reaction>
    var targets: map<Target, Counts>

    predicate Valid()
      reads this
    {
      OneReactionPerKey(reactions)
    }

    /** Every stored `reactions` field agrees with a recount of the records. */
    predicate CountsAgree()
      reads this
    {
      forall t :: t in targets ==> targets[t] == Recount(reactions, t.targetId)
    }

    constructor (documents: set<Target>)
      ensures reactions == [] && targets == map t | t in documents :: Counts(0, 0)
      ensures Valid() && CountsAgree()
    {
      reactions := [];
      targets := map t | t in documents :: Counts(0, 0);
    }

    /** `calculateReaction`: recount the records on `targetId` and write the result into
        that target's `reactions` field; updating a missing document does nothing. */
    method CalculateReaction(targetId: DocId, targetType: TargetType) returns (counts: Counts)
      modifies this`targets
      ensures counts == Recount(reactions, targetId)
      ensures targets == if Target(targetType, targetId) in old(targets)
                         then old(targets)[Target(targetType, targetId) := counts]
                         else old(targets)
    {
      counts := Recount(reactions, targetId);
      var t := Target(targetType, targetId);
      if t in targets {
        targets := targets[t := counts];
      }
    }

    /** `saveReaction` by `currentUserId`: the toggle on the records, then the recount. */
    method SaveReaction(currentUserId: UserId, targetType: TargetType, targetId: DocId, emoji: Emoji)
      returns (counts: Counts)
      modifies this
      ensures reactions == Saved(old(reactions), Key(targetType, targetId, currentUserId), emoji)
      ensures counts == Recount(reactions, targetId)
      ensures targets == if Target(targetType, targetId) in old(targets)
                         then old(targets)[Target(targetType, targetId) := counts]
                         else old(targets)
      ensures old(Valid()) ==> Valid()
      ensures forall t :: t in old(targets) && t.targetId != targetId &&
                          old(targets[t]) == Recount(old(reactions), t.targetId) ==>
                          targets[t] == Recount(reactions, t.targetId)
      ensures forall t :: t in old(targets) && t.targetId == targetId && t.targetType != targetType ==>
                          targets[t] == old(targets[t])
      ensures old(CountsAgree()) &&
              (forall t :: t in targets && t.targetId == targetId ==> t.targetType == targetType) ==>
              CountsAgree()
    {
      var k := Key(targetType, targetId, currentUserId);
      ghost var before := reactions;
      var reaction := Find(reactions, k);
      if reaction == None {
        reactions := reactions + [Reaction(targetType, targetId, currentUserId, emoji)];
      } else {
        var i := reaction.value;
        if reactions[i].emoji == emoji {
          reactions := reactions[..i] + reactions[i + 1..];
        } else {
          reactions := reactions[i := reactions[i].(emoji := emoji)];
        }
      }
      if OneReactionPerKey(before) { SavedKeepsOneReactionPerKey(before, k, emoji); }
      ghost var oldTargets := targets;
      counts := CalculateReaction(targetId, targetType);
      forall t | t in oldTargets && t.targetId != targetId
        ensures Recount(reactions, t.targetId) == Recount(before, t.targetId)
      {
        SavedRecount(before, k, emoji, t.targetId);
      }
    }
  }
}
