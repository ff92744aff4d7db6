/** Page types and the linkage the prefetch buffer relies on (page_api.py, LocalPage and OnlinePage). */
module Pages {
  import opened Wrappers

  /** What the prefetch buffer asks of a page type:
      - `hasNext(p)` / `hasPrev(p)`: the page after / before `p` exists;
      - `next(p)` / `prev(p)`: load that neighbouring page;
      - `isNext(a, b)`: `b` is the page right after `a` (Python's `a.is_next(b)`);
      - `isPrev(a, b)`: `b` is the page right before `a` (Python's `a.is_prev(b)`). */
  datatype Linkage<!P> = Linkage(
    hasNext: P -> bool,
    hasPrev: P -> bool,
    next: P -> P,
    prev: P -> P,
    isNext: (P, P) -> bool,
    isPrev: (P, P) -> bool)

  /** The two adjacency tests agree: `b` follows `a` exactly when `a` precedes `b`. */
  ghost predicate Symmetric<P(!new)>(link: Linkage<P>) {
    forall a: P, b: P :: link.isNext(a, b) <==> link.isPrev(b, a)
  }

  /** A page stored as the numbered image file `<pageNum>.png` of one folder. */
  datatype LocalPage = LocalPage(pageNum: int)

  /** The linkage of local pages; `present(n)` says that the file of page `n` exists. */
  function Local(present: int -> bool): Linkage<LocalPage> {
    Linkage(
      (p: LocalPage) => present(p.pageNum + 1),
      (p: LocalPage) => present(p.pageNum - 1),
      (p: LocalPage) => LocalPage(p.pageNum + 1),
      (p: LocalPage) => LocalPage(p.pageNum - 1),
      (a: LocalPage, b: LocalPage) => a.pageNum == b.pageNum - 1,
      (a: LocalPage, b: LocalPage) => a.pageNum == b.pageNum + 1)
  }

  /** Loading a neighbour steps the page number by one, and existence is the file check on that
      number. That the loaded page passes the adjacency test is `LocalQueue.LocalCoherent`. */
  lemma LocalNeighbours(present: int -> bool, p: LocalPage)
    ensures Local(present).next(p).pageNum == p.pageNum + 1
    ensures Local(present).prev(p).pageNum == p.pageNum - 1
    ensures Local(present).hasNext(p) <==> present(p.pageNum + 1)
    ensures Local(present).hasPrev(p) <==> present(p.pageNum - 1)
  {
  }

  /** Adjacency of local pages is exactly "differs by one": the only page after `a` is `next(a)`,
      the only page before `a` is `prev(a)`. */
  lemma LocalAdjacencyUnique(present: int -> bool, a: LocalPage, b: LocalPage)
    ensures Local(present).isNext(a, b) <==> b == Local(present).next(a)
    ensures Local(present).isPrev(a, b) <==> b == Local(present).prev(a)
  {
  }

  /** Local pages satisfy the symmetry the buffer's chain invariant needs. */
  lemma LocalSymmetric(present: int -> bool)
    ensures Symmetric(Local(present))
  {
  }

  /** A page scraped from a web site: its own address and the `href`s of its previous and next
      links, each absent when the link was not found. */
  datatype OnlinePage = OnlinePage(thisUrl: string, prevUrl: Option<string>, nextUrl: Option<string>)

  /** Python truthiness of an optional string: `None` and `""` are false. */
  predicate Truthy(s: Option<string>) {
    s.Some? && s.value != ""
  }

  predicate OnlineHasNext(p: OnlinePage) {
    Truthy(p.nextUrl)
  }

  predicate OnlineHasPrev(p: OnlinePage) {
    Truthy(p.prevUrl)
  }

  /** `a.is_next(b)`: the previous-link of `b` points at `a`. */
  predicate OnlineIsNext(a: OnlinePage, b: OnlinePage) {
    b.prevUrl == Some(a.thisUrl)
  }

  /** `a.is_prev(b)`: the next-link of `b` points at `a`. */
  predicate OnlineIsPrev(a: OnlinePage, b: OnlinePage) {
    b.nextUrl == Some(a.thisUrl)
  }

  /** Online pages compare different link fields in the two tests, so the symmetry local pages
      enjoy fails: a page can name `a` as its predecessor while `a` names another page as its successor. */
  lemma OnlineAdjacencyAsymmetric()
    ensures exists a: OnlinePage, b: OnlinePage :: OnlineIsNext(a, b) && !OnlineIsPrev(b, a)
  {
    var a := OnlinePage("x", None, Some("y"));
    var b := OnlinePage("z", Some("x"), None);
    assert OnlineIsNext(a, b) && !OnlineIsPrev(b, a);
  }
}
