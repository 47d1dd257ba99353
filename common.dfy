/** Identities and small wrappers shared by the relationship and reaction models. */
module Common {

  /** An opaque user identity (a Mongo ObjectId in the system); only compared for equality. */
  type UserId = nat

  /** The identity of a story, comment or post document. */
  type DocId = nat

  datatype Option<+T> = None | Some(value: T)

  /** The all-or-nothing result of a handler that returns no value. */
  datatype Outcome<+E> = Pass | Fail(error: E)

  /** The two reaction values ("like" / "dislike"). */
  datatype Emoji = Like | Dislike

  /** The toggle rule every reaction handler follows: reacting with the emoji one already
      holds withdraws it, any other request leaves the requested emoji in place. */
  function Toggled(current: Option<Emoji>, requested: Emoji): (r: Option<Emoji>)
    ensures r == None <==> current == Some(requested)
    ensures r != None ==> r == Some(requested)
  {
    if current == Some(requested) then None else Some(requested)
  }

  /** Toggling the same emoji twice returns to where one started, provided one did not
      start from the opposite emoji (which the first toggle overwrites). */
  lemma ToggledTwice(current: Option<Emoji>, requested: Emoji)
    requires current == None || current == Some(requested)
    ensures Toggled(Toggled(current, requested), requested) == current
  {
  }

  /** `s` with its first occurrence of `x` removed (unchanged when `x` does not occur);
      what `arr.splice(arr.indexOf(x), 1)` does to an array holding `x`. */
  function RemoveFirst<T(==)>(s: seq<T>, x: T): (r: seq<T>)
    ensures x in s ==> |r| == |s| - 1
    ensures x !in s ==> r == s
    ensures multiset(r) == multiset(s) - multiset{x}
  {
    if s == [] then []
    else
      assert s == [s[0]] + s[1..];
      if s[0] == x then s[1..] else [s[0]] + RemoveFirst(s[1..], x)
  }

  /** No identity occurs twice in `s`. */
  predicate NoDuplicates<T(==)>(s: seq<T>)
  {
    forall i, j :: 0 <= i < j < |s| ==> s[i] != s[j]
  }

  lemma {:induction false} RemoveFirstSplits<T>(s: seq<T>, i: nat, x: T)
    requires i < |s| && s[i] == x && x !in s[..i]
    ensures RemoveFirst(s, x) == s[..i] + s[i + 1..]
  {
    if i > 0 {
      assert s[0] in s[..i];
      assert s[1..][..i - 1] == s[1..i];
      assert x !in s[1..][..i - 1];
      RemoveFirstSplits(s[1..], i - 1, x);
      assert s[..i] == [s[0]] + s[1..][..i - 1];
      assert s[i + 1..] == s[1..][i..];
    }
  }

  lemma RemoveFirstKeepsOthers<T>(s: seq<T>, x: T, y: T)
    requires y != x
    ensures y in RemoveFirst(s, x) <==> y in s
  {
    assert multiset(RemoveFirst(s, x)) == multiset(s) - multiset{x};
    assert y in multiset(RemoveFirst(s, x)) <==> y in multiset(s);
  }

  /** The index of the first occurrence of `x` in `s`, which occurs there. */
  function FirstIndex<T(==)>(s: seq<T>, x: T): (i: nat)
    requires x in s
    ensures i < |s| && s[i] == x && x !in s[..i]
  {
    if s[0] == x then 0
    else
      assert s[1..][..FirstIndex(s[1..], x)] == s[1..1 + FirstIndex(s[1..], x)];
      1 + FirstIndex(s[1..], x)
  }

  lemma RemoveFirstNoDuplicates<T>(s: seq<T>, x: T)
    requires NoDuplicates(s)
    ensures NoDuplicates(RemoveFirst(s, x)) && x !in RemoveFirst(s, x)
  {
    if x in s {
      var i := FirstIndex(s, x);
      RemoveFirstSplits(s, i, x);
      var r := s[..i] + s[i + 1..];
      assert forall k :: 0 <= k < |r| ==> r[k] == s[if k < i then k else k + 1];
      forall a, b | 0 <= a < b < |r| ensures r[a] != r[b] {
        assert r[a] == s[if a < i then a else a + 1];
        assert r[b] == s[if b < i then b else b + 1];
      }
      forall k | 0 <= k < |r| ensures r[k] != x {
        assert r[k] == s[if k < i then k else k + 1];
      }
    }
  }
}
