// Parts of a list that keep its order.
module Selections {

  ghost predicate Increasing(p: seq<nat>, n: nat) {
    && (forall i :: 0 <= i < |p| ==> p[i] < n)
    && (forall i, j :: 0 <= i < j < |p| ==> p[i] < p[j])
  }

  ghost predicate SelectsAt<T>(r: seq<T>, s: seq<T>, p: seq<nat>, keep: nat -> bool) {
    && |p| == |r| && Increasing(p, |s|)
    && (forall i :: 0 <= i < |r| ==> r[i] == s[p[i]])
    && (forall j :: 0 <= j < |s| ==> (j in p <==> keep(j)))
  }

  // r lists, in order, the elements of s at exactly the positions to keep.
  ghost predicate IsSelection<T>(r: seq<T>, s: seq<T>, keep: nat -> bool) {
    exists p :: SelectsAt(r, s, p, keep)
  }

  lemma SelectNothing<T>(keep: nat -> bool)
    ensures IsSelection<T>([], [], keep)
  {
    assert SelectsAt<T>([], [], [], keep);
  }

  // The same choice among the positions of s, expressed in another way.
  lemma SameChoice<T>(r: seq<T>, s: seq<T>, keep: nat -> bool, keep': nat -> bool)
    requires IsSelection(r, s, keep) && forall i :: 0 <= i < |s| ==> keep(i) == keep'(i)
    ensures IsSelection(r, s, keep')
  {
    var p :| SelectsAt(r, s, p, keep);
    assert SelectsAt(r, s, p, keep');
  }

  // One more element at the end.
  lemma SelectLast<T>(r: seq<T>, s: seq<T>, x: T, keep: nat -> bool)
    requires IsSelection(r, s, keep)
    ensures IsSelection(if keep(|s|) then r + [x] else r, s + [x], keep)
  {
    var p: seq<nat> :| SelectsAt(r, s, p, keep);
    if keep(|s|) {
      assert SelectsAt(r + [x], s + [x], p + [|s| as nat], keep);
    } else {
      assert SelectsAt(r, s + [x], p, keep);
    }
  }
}
