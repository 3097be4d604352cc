/** First-match search in a sequence, and what is left without one element. */
module Lists {

  /** Position of the first element that satisfies p, or |s|. */
  function FirstIndex<T>(s: seq<T>, p: T -> bool): (i: nat)
    ensures i <= |s|
    ensures i < |s| ==> p(s[i])
    ensures forall k :: 0 <= k < i ==> !p(s[k])
  {
    if s == [] || p(s[0]) then 0
    else
      var i := FirstIndex(s[1..], p);
      assert forall k :: 0 < k <= i ==> k == |s| || s[k] == s[1..][k - 1];
      i + 1
  }

  ghost predicate Increasing(at: seq<nat>) {
    forall i, j :: 0 <= i < j < |at| ==> at[i] < at[j]
  }

  /** r holds the elements of s at exactly the positions marked in `keep`, in order. */
  ghost predicate IsSelection<T>(s: seq<T>, keep: seq<bool>, r: seq<T>)
    requires |keep| == |s|
  {
    exists at: seq<nat> :: Increasing(at) && SelectsAt(s, keep, r, at)
  }

  ghost predicate SelectsAt<T>(s: seq<T>, keep: seq<bool>, r: seq<T>, at: seq<nat>)
    requires |keep| == |s|
  {
    && |at| == |r|
    && (forall i: nat :: i in at <==> i < |s| && keep[i])
    && forall k :: 0 <= k < |at| ==> at[k] < |s| && r[k] == s[at[k]]
  }

  lemma EmptySelection<T>()
    ensures IsSelection<T>([], [], [])
  {
    assert Increasing([]) && SelectsAt<T>([], [], [], []);
  }

  lemma SelectionGrows<T>(s: seq<T>, keep: seq<bool>, r: seq<T>, x: T, k: bool)
    requires |keep| == |s| && IsSelection(s, keep, r)
    ensures IsSelection(s + [x], keep + [k], r + if k then [x] else [])
  {
    var at: seq<nat> :| Increasing(at) && SelectsAt(s, keep, r, at);
    var at': seq<nat> := at + if k then [|s|] else [];
    forall i: nat
      ensures i in at' <==> i < |s| + 1 && (keep + [k])[i]
    {
      assert i in at' <==> i in at || (k && i == |s|);
    }
    assert SelectsAt(s + [x], keep + [k], r + if k then [x] else [], at') && Increasing(at');
  }

  lemma SelectionEmpty<T>(s: seq<T>, keep: seq<bool>, r: seq<T>)
    requires |keep| == |s| && IsSelection(s, keep, r)
    ensures r == [] <==> forall i :: 0 <= i < |keep| ==> !keep[i]
  {
    var at: seq<nat> :| Increasing(at) && SelectsAt(s, keep, r, at);
    if r != [] {
      assert at[0] in at;
    }
  }

  function WithoutAt<T>(s: seq<T>, i: nat): (w: seq<T>)
    requires i < |s|
    ensures |w| == |s| - 1 && forall k :: 0 <= k < |w| ==> w[k] == s[if k < i then k else k + 1]
  {
    s[..i] + s[i + 1..]
  }
}
