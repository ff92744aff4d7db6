/** Runs of pages in which each page is the successor of the one before it. */
module Chains {
  import opened Pages

  /** Every page of `s` after the first is the page right after its predecessor in `s`. */
  ghost predicate Linked<P>(link: Linkage<P>, s: seq<P>) {
    forall i, j | 0 <= i && j == i + 1 && j < |s| :: link.isNext(s[i], s[j])
  }

  /** Any contiguous piece of a linked run is linked. */
  lemma LinkedSlice<P>(link: Linkage<P>, s: seq<P>, lo: nat, hi: nat)
    requires Linked(link, s)
    requires lo <= hi <= |s|
    ensures Linked(link, s[lo..hi])
  {
    var t := s[lo..hi];
    forall i, j | 0 <= i && j == i + 1 && j < |t|
      ensures link.isNext(t[i], t[j])
    {
      assert t[i] == s[lo + i] && t[j] == s[lo + j];
    }
  }

  /** Extending a linked run on the right keeps it linked exactly when the new page follows the old last one. */
  lemma LinkedSnoc<P>(link: Linkage<P>, s: seq<P>, x: P)
    requires |s| > 0
    ensures Linked(link, s + [x]) <==> Linked(link, s) && link.isNext(s[|s| - 1], x)
  {
    var t := s + [x];
    if Linked(link, s) && link.isNext(s[|s| - 1], x) {
      forall i, j | 0 <= i && j == i + 1 && j < |t|
        ensures link.isNext(t[i], t[j])
      {
        if j < |s| {
          assert t[i] == s[i] && t[j] == s[j];
        }
      }
    }
    if Linked(link, t) {
      assert t[..|s|] == s;
      LinkedSlice(link, t, 0, |s|);
      assert t[|s| - 1] == s[|s| - 1] && t[|s|] == x;
    }
  }

  /** Extending a linked run on the left keeps it linked exactly when the old first page follows the new one. */
  lemma LinkedCons<P>(link: Linkage<P>, x: P, s: seq<P>)
    requires |s| > 0
    ensures Linked(link, [x] + s) <==> Linked(link, s) && link.isNext(x, s[0])
  {
    var t := [x] + s;
    if Linked(link, s) && link.isNext(x, s[0]) {
      forall i, j | 0 <= i && j == i + 1 && j < |t|
        ensures link.isNext(t[i], t[j])
      {
        if i > 0 {
          assert t[i] == s[i - 1] && t[j] == s[j - 1];
        }
      }
    }
    if Linked(link, t) {
      assert t[1..] == s;
      LinkedSlice(link, t, 1, |t|);
      assert t[0] == x && t[1] == s[0];
    }
  }
}
