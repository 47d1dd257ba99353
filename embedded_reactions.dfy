/** The like/dislike subdocument that stories and comments embed: two author-id arrays
    and two counters, updated in place by the "like" and "disLike" toggles. */
module EmbeddedReactions {
  import opened Common

  /** The value of one `reactions` subdocument. */
  datatype Tally = Tally(likes: seq<UserId>, disLikes: seq<UserId>, like: int, disLike: int)

  /** The counters are the list lengths, and every author is listed at most once overall. */
  predicate Consistent(t: Tally)
  {
    && t.like == |t.likes|
    && t.disLike == |t.disLikes|
    && NoDuplicates(t.likes)
    && NoDuplicates(t.disLikes)
    && forall a :: a in t.likes ==> a !in t.disLikes
  }

  /** The reaction `a` holds according to the two lists. */
  function Stance(t: Tally, a: UserId): Option<Emoji>
  {
    if a in t.likes then Some(Like) else if a in t.disLikes then Some(Dislike) else None
  }

  /** The same subdocument with the like side and the dislike side exchanged. */
  function Mirror(t: Tally): Tally
  {
    Tally(t.disLikes, t.likes, t.disLike, t.like)
  }

  /** The effect of a "like" by `a`: withdraw it if `a` already likes, otherwise drop `a`
      from the dislikes (if there) and add `a` to the likes. */
  function PressedLike(t: Tally, a: UserId): Tally
  {
    if a in t.likes then
      t.(likes := RemoveFirst(t.likes, a), like := t.like - 1)
    else
      Tally(t.likes + [a], RemoveFirst(t.disLikes, a), t.like + 1,
            if a in t.disLikes then t.disLike - 1 else t.disLike)
  }

  /** The effect of a "disLike" by `a`, the mirror image of `PressedLike`. */
  function PressedDisLike(t: Tally, a: UserId): Tally
  {
    if a in t.disLikes then
      t.(disLikes := RemoveFirst(t.disLikes, a), disLike := t.disLike - 1)
    else
      Tally(RemoveFirst(t.likes, a), t.disLikes + [a],
            if a in t.likes then t.like - 1 else t.like, t.disLike + 1)
  }

  lemma DisLikeMirrorsLike(t: Tally, a: UserId)
    ensures PressedDisLike(t, a) == Mirror(PressedLike(Mirror(t), a))
  {
  }

  lemma MirrorConsistent(t: Tally)
    ensures Consistent(Mirror(t)) <==> Consistent(t)
  {
  }

  lemma MirrorStance(t: Tally, a: UserId)
    requires Consistent(t)
    ensures Stance(Mirror(t), a) == match Stance(t, a)
      case None => None
      case Some(Like) => Some(Dislike)
      case Some(Dislike) => Some(Like)
  {
  }

  lemma AppendedNoDuplicates(s: seq<UserId>, a: UserId)
    requires NoDuplicates(s) && a !in s
    ensures NoDuplicates(s + [a])
  {
    var l := s + [a];
    forall i, j | 0 <= i < j < |l| ensures l[i] != l[j] {
      if j == |s| { assert l[i] == s[i]; } else { assert l[i] == s[i] && l[j] == s[j]; }
    }
  }

  lemma UnlikedConsistent(t: Tally, a: UserId)
    requires Consistent(t) && a in t.likes
    ensures Consistent(PressedLike(t, a)) && a !in PressedLike(t, a).likes
  {
    var r := PressedLike(t, a);
    assert r.likes == RemoveFirst(t.likes, a) && r.disLikes == t.disLikes;
    RemoveFirstNoDuplicates(t.likes, a);
    forall b | b in r.likes ensures b !in r.disLikes {
      RemoveFirstKeepsOthers(t.likes, a, b);
    }
  }

  lemma LikedConsistent(t: Tally, a: UserId)
    requires Consistent(t) && a !in t.likes
    ensures Consistent(PressedLike(t, a)) && a in PressedLike(t, a).likes
  {
    var r := PressedLike(t, a);
    assert r.likes == t.likes + [a] && r.disLikes == RemoveFirst(t.disLikes, a);
    AppendedNoDuplicates(t.likes, a);
    RemoveFirstNoDuplicates(t.disLikes, a);
    forall b | b in r.likes ensures b !in r.disLikes {
      if b != a {
        assert b in t.likes;
        RemoveFirstKeepsOthers(t.disLikes, a, b);
      }
    }
  }

  lemma LikeKeepsOthers(t: Tally, a: UserId, b: UserId)
    requires b != a
    ensures Stance(PressedLike(t, a), b) == Stance(t, b)
  {
    var r := PressedLike(t, a);
    RemoveFirstKeepsOthers(t.likes, a, b);
    RemoveFirstKeepsOthers(t.disLikes, a, b);
    assert b in r.likes <==> b in t.likes;
    assert b in r.disLikes <==> b in t.disLikes;
  }

  /** A "like" keeps the subdocument consistent, moves `a` by the toggle rule and leaves
      every other author's reaction as it was. */
  lemma PressedLikeKeepsConsistent(t: Tally, a: UserId)
    requires Consistent(t)
    ensures Consistent(PressedLike(t, a))
    ensures Stance(PressedLike(t, a), a) == Toggled(Stance(t, a), Like)
    ensures forall b :: b != a ==> Stance(PressedLike(t, a), b) == Stance(t, b)
  {
    if a in t.likes { UnlikedConsistent(t, a); } else { LikedConsistent(t, a); }
    forall b | b != a ensures Stance(PressedLike(t, a), b) == Stance(t, b) {
      LikeKeepsOthers(t, a, b);
    }
  }

  /** The "disLike" counterpart of `PressedLikeKeepsConsistent`. */
  lemma PressedDisLikeKeepsConsistent(t: Tally, a: UserId)
    requires Consistent(t)
    ensures Consistent(PressedDisLike(t, a))
    ensures Stance(PressedDisLike(t, a), a) == Toggled(Stance(t, a), Dislike)
    ensures forall b :: b != a ==> Stance(PressedDisLike(t, a), b) == Stance(t, b)
  {
    MirrorConsistent(t);
    PressedLikeKeepsConsistent(Mirror(t), a);
    DisLikeMirrorsLike(t, a);
    MirrorConsistent(PressedLike(Mirror(t), a));
    MirrorStance(t, a);
    MirrorStance(PressedLike(Mirror(t), a), a);
    forall b | b != a ensures Stance(PressedDisLike(t, a), b) == Stance(t, b) {
      MirrorStance(t, b);
      MirrorStance(PressedLike(Mirror(t), a), b);
    }
  }

  lemma RemoveAppended(s: seq<UserId>, a: UserId)
    requires a !in s
    ensures RemoveFirst(s + [a], a) == s
  {
    RemoveFirstSplits(s + [a], |s|, a);
    assert (s + [a])[..|s|] == s;
  }

  /** Two "like"s by an author who held no reaction restore the subdocument exactly. */
  lemma LikeTwiceFromNeither(t: Tally, a: UserId)
    requires a !in t.likes && a !in t.disLikes
    ensures PressedLike(PressedLike(t, a), a) == t
  {
    RemoveAppended(t.likes, a);
  }

  /** Two "like"s by an author who already liked restore both counters, the dislikes and
      the set of likers (the author moves to the end of the likes array). */
  lemma LikeTwiceFromLiked(t: Tally, a: UserId)
    requires Consistent(t) && a in t.likes
    ensures var r := PressedLike(PressedLike(t, a), a);
      r.like == t.like && r.disLike == t.disLike && r.disLikes == t.disLikes &&
      multiset(r.likes) == multiset(t.likes)
  {
    RemoveFirstNoDuplicates(t.likes, a);
    var once := PressedLike(t, a);
    assert a !in once.likes && a !in once.disLikes;
    assert RemoveFirst(t.disLikes, a) == t.disLikes;
  }

  /** Two "disLike"s by an author who held no reaction restore the subdocument exactly. */
  lemma DisLikeTwiceFromNeither(t: Tally, a: UserId)
    requires a !in t.likes && a !in t.disLikes
    ensures PressedDisLike(PressedDisLike(t, a), a) == t
  {
    RemoveAppended(t.disLikes, a);
  }

  /** One story's or comment's `reactions` subdocument, as the handlers mutate it. */
  class Reactions {
    var like: int
    var disLike: int
    var authorIdOfLike: seq<UserId>
    var authorIdOfDisLike: seq<UserId>

    function Value(): Tally
      reads this
    {
      Tally(authorIdOfLike, authorIdOfDisLike, like, disLike)
    }

    /** A fresh subdocument: no reactions, both counters 0. */
    constructor ()
      ensures Value() == Tally([], [], 0, 0) && Consistent(Value())
    {
      like, disLike := 0, 0;
      authorIdOfLike, authorIdOfDisLike := [], [];
    }

    /** The "like" branch: the membership tests, `like -= 1` / `+= 1`, `splice` and `push`. */
    method PressLike(a: UserId)
      modifies this
      ensures Value() == PressedLike(old(Value()), a)
      ensures old(Consistent(Value())) ==> Consistent(Value())
    {
      ghost var before := Value();
      assert Consistent(before) ==> Consistent(PressedLike(before, a)) by {
        if Consistent(before) { PressedLikeKeepsConsistent(before, a); }
      }
      var matched := a in authorIdOfLike;
      if matched {
        like := like - 1;
        authorIdOfLike := SpliceOut(authorIdOfLike, a);
        assert Value() == PressedLike(before, a);
      }
      if !matched {
        var matchedOther := a in authorIdOfDisLike;
        if matchedOther {
          disLike := disLike - 1;
          authorIdOfDisLike := SpliceOut(authorIdOfDisLike, a);
        }
        like := like + 1;
        authorIdOfLike := authorIdOfLike + [a];
        assert Value() == PressedLike(before, a);
      }
    }

    /** The "disLike" branch, the mirror image of `PressLike`. */
    method PressDisLike(a: UserId)
      modifies this
      ensures Value() == PressedDisLike(old(Value()), a)
      ensures old(Consistent(Value())) ==> Consistent(Value())
    {
      ghost var before := Value();
      assert Consistent(before) ==> Consistent(PressedDisLike(before, a)) by {
        if Consistent(before) { PressedDisLikeKeepsConsistent(before, a); }
      }
      var matched := a in authorIdOfDisLike;
      if matched {
        disLike := disLike - 1;
        authorIdOfDisLike := SpliceOut(authorIdOfDisLike, a);
        assert Value() == PressedDisLike(before, a);
      }
      if !matched {
        var matchedOther := a in authorIdOfLike;
        if matchedOther {
          like := like - 1;
          authorIdOfLike := SpliceOut(authorIdOfLike, a);
        }
        disLike := disLike + 1;
        authorIdOfDisLike := authorIdOfDisLike + [a];
        assert Value() == PressedDisLike(before, a);
      }
    }
  }

  /** `s.splice(s.indexOf(x), 1)` for an `x` that occurs in `s`. */
  method SpliceOut(s: seq<UserId>, x: UserId) returns (r: seq<UserId>)
    requires x in s
    ensures r == RemoveFirst(s, x)
  {
    var index := IndexOf(s, x);
    RemoveFirstSplits(s, index, x);
    r := s[..index] + s[index + 1..];
  }

  /** `Array.prototype.indexOf`: the first position of `x` in `s`, or -1. */
  method IndexOf(s: seq<UserId>, x: UserId) returns (i: int)
    ensures -1 <= i && (i == -1 <==> x !in s)
    ensures 0 <= i ==> i < |s| && s[i] == x && x !in s[..i]
  {
    var k := 0;
    while k < |s|
      invariant 0 <= k <= |s|
      invariant x !in s[..k]
    {
      if s[k] == x { return k; }
      assert s[..k + 1] == s[..k] + [s[k]];
      k := k + 1;
    }
    assert s[..k] == s;
    return -1;
  }
}
