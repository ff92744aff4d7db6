/** The prefetch buffer over local pages (numbered image files), where the chain invariant takes
    its explicit form: the pages ahead are numbered c+1, c+2, ... and the pages behind ..., c-2, c-1. */
module LocalQueue {
  import opened Pages
  import opened Chains
  import opened QueueThread
  import opened Interleavings

  /** The pages of `q` are numbered consecutively from `start`. */
  predicate NumberedFrom(q: seq<LocalPage>, start: int) {
    forall i | 0 <= i < |q| :: q[i].pageNum == start + i
  }

  /** For local pages a linked run is exactly a run of consecutive page numbers. */
  lemma LinkedIsNumbered(present: int -> bool, s: seq<LocalPage>)
    requires |s| > 0
    ensures Linked(Local(present), s) <==> NumberedFrom(s, s[0].pageNum)
  {
    var link := Local(present);
    if Linked(link, s) {
      var k := 0;
      while k < |s|
        invariant k <= |s|
        invariant forall i | 0 <= i < k :: s[i].pageNum == s[0].pageNum + i
      {
        if k > 0 {
          assert link.isNext(s[k - 1], s[k]);
        }
        k := k + 1;
      }
    }
    if NumberedFrom(s, s[0].pageNum) {
      forall i, j | 0 <= i && j == i + 1 && j < |s|
        ensures link.isNext(s[i], s[j])
      {
      }
    }
  }

  /** The chain invariant of a buffer of local pages, spelled out: both directions hold. */
  lemma ChainedIsNumbered(present: int -> bool, b: Buffer<LocalPage>)
    ensures Chained(Local(present), b) <==>
      && NumberedFrom(b.prevQueue, b.current.pageNum - |b.prevQueue|)
      && NumberedFrom(b.nextQueue, b.current.pageNum + 1)
  {
    var w := Window(b);
    var j := |b.prevQueue|;
    LinkedIsNumbered(present, w);
    var start := w[0].pageNum;
    if NumberedFrom(w, start) {
      assert w[j] == b.current;
      forall i | 0 <= i < j ensures b.prevQueue[i].pageNum == b.current.pageNum - j + i {
        assert w[i] == b.prevQueue[i];
      }
      forall i | 0 <= i < |b.nextQueue| ensures b.nextQueue[i].pageNum == b.current.pageNum + 1 + i {
        assert w[j + 1 + i] == b.nextQueue[i];
      }
    }
    if NumberedFrom(b.prevQueue, b.current.pageNum - j) && NumberedFrom(b.nextQueue, b.current.pageNum + 1) {
      assert start == b.current.pageNum - j by {
        if j == 0 {
          assert w[0] == b.current;
        } else {
          assert w[0] == b.prevQueue[0];
        }
      }
      forall i | 0 <= i < |w| ensures w[i].pageNum == start + i {
        if i < j {
          assert w[i] == b.prevQueue[i];
        } else if i == j {
          assert w[i] == b.current;
        } else {
          assert w[i] == b.nextQueue[i - j - 1];
        }
      }
    }
  }

  /** In a chained buffer of local pages no page is repeated: the current page is in neither deque,
      no page is in both, and neither deque holds a page twice. */
  lemma ChainedIsDistinct(present: int -> bool, b: Buffer<LocalPage>)
    requires Chained(Local(present), b)
    ensures b.current !in b.nextQueue && b.current !in b.prevQueue
    ensures forall p | p in b.nextQueue :: p !in b.prevQueue
    ensures forall i, j | 0 <= i < j < |b.nextQueue| :: b.nextQueue[i] != b.nextQueue[j]
    ensures forall i, j | 0 <= i < j < |b.prevQueue| :: b.prevQueue[i] != b.prevQueue[j]
  {
    ChainedIsNumbered(present, b);
    forall p | p in b.nextQueue ensures p.pageNum > b.current.pageNum {
      var i :| 0 <= i < |b.nextQueue| && b.nextQueue[i] == p;
    }
    forall p | p in b.prevQueue ensures p.pageNum < b.current.pageNum {
      var i :| 0 <= i < |b.prevQueue| && b.prevQueue[i] == p;
    }
  }

  /** Local pages load neighbours that pass the adjacency tests. */
  lemma LocalCoherent(present: int -> bool)
    ensures Coherent(Local(present))
  {
  }

  /** The buffer invariant over local pages, in explicit form. */
  predicate LocalInv(b: Buffer<LocalPage>) {
    && WellFormed(b)
    && NumberedFrom(b.prevQueue, b.current.pageNum - |b.prevQueue|)
    && NumberedFrom(b.nextQueue, b.current.pageNum + 1)
  }

  /** Whatever the consumer does while a page is being loaded, and whichever page the loop then
      offers, the deques stay numbered consecutively away from the current page, within bounds. */
  lemma LocalIterationKeepsNumbering(present: int -> bool, b: Buffer<LocalPage>, s: Schedule)
    requires LocalInv(b)
    ensures LocalInv(Iteration(Local(present), b, s))
  {
    var link := Local(present);
    ChainedIsNumbered(present, b);
    LocalSymmetric(present);
    IterationKeepsInv(link, b, s);
    ChainedIsNumbered(present, Iteration(link, b, s));
  }

  /** Every state reachable from a fresh buffer of local pages, including those in the middle of a
      loop iteration, is numbered consecutively around the current page and repeats no page. */
  lemma LocalSessionDistinct(present: int -> bool, start: LocalPage, nextPages: nat, prevPages: nat,
                             schedules: seq<Schedule>, last: Schedule, steps: nat)
    requires 0 < nextPages && 0 < prevPages
    ensures var b := Reached(Local(present), Init(start, nextPages, prevPages), schedules, last, steps);
      && LocalInv(b)
      && b.current !in b.nextQueue && b.current !in b.prevQueue
      && forall p | p in b.nextQueue :: p !in b.prevQueue
  {
    var link := Local(present);
    var b0 := Init(start, nextPages, prevPages);
    InitInv(link, start, nextPages, prevPages);
    LocalSymmetric(present);
    ReachedKeepsInv(link, b0, schedules, last, steps);
    var b := Reached(link, b0, schedules, last, steps);
    ChainedIsNumbered(present, b);
    ChainedIsDistinct(present, b);
  }

  /** Pages 0 to 4 exist. */
  function FivePages(): int -> bool {
    (n: int) => 0 <= n <= 4
  }

  /** Page 2 with pages 3 and 4 ahead and pages 0 and 1 behind, two of each allowed. */
  function FullAtTwo(): Buffer<LocalPage> {
    Buffer(LocalPage(2), [LocalPage(3), LocalPage(4)], [LocalPage(0), LocalPage(1)], 2, 2, true, true)
  }

  /** Starting at page 2 of pages 0 to 4 with two pages of lookahead and lookbehind, two loop
      iterations without consumer calls fill both deques. */
  lemma FivePageFill()
    ensures var link := Local(FivePages());
      var quiet := Schedule([], [], [], []);
      Iteration(link, Iteration(link, Init(LocalPage(2), 2, 2), quiet), quiet) == FullAtTwo()
  {
    var link := Local(FivePages());
    var quiet := Schedule([], [], [], []);
    var b0 := Init(LocalPage(2), 2, 2);
    var a0 := b0.(nextQueue := [LocalPage(3)], nextReady := true);
    assert CommitFetchedNext(link, b0, FetchNext(link, b0)) == a0;
    var b1 := a0.(prevQueue := [LocalPage(1)], prevReady := true);
    assert CommitFetchedPrev(link, a0, FetchPrev(link, a0)) == b1;
    assert Iteration(link, b0, quiet) == b1;
    var a1 := b1.(nextQueue := [LocalPage(3), LocalPage(4)]);
    assert CommitFetchedNext(link, b1, FetchNext(link, b1)) == a1;
    assert CommitFetchedPrev(link, a1, FetchPrev(link, a1)) == FullAtTwo();
    assert Iteration(link, b1, quiet) == FullAtTwo();
  }

  /** From there two `next()` calls reach page 4: the forward deque is empty and pages 2 and 3 are
      behind, page 1 having been evicted. */
  lemma FivePageAdvance()
    ensures var link := Local(FivePages());
      var at3 := Buffer(LocalPage(3), [LocalPage(4)], [LocalPage(1), LocalPage(2)], 2, 2, true, true);
      var at4 := Buffer(LocalPage(4), [], [LocalPage(2), LocalPage(3)], 2, 2, false, true);
      && Next(link, FullAtTwo()) == Returned(LocalPage(3), at3)
      && Next(link, at3) == Returned(LocalPage(4), at4)
  {
  }

  /** At the last page `next()` returns the current page and changes nothing. */
  lemma FivePageEnd()
    ensures var link := Local(FivePages());
      var at4 := Buffer(LocalPage(4), [], [LocalPage(2), LocalPage(3)], 2, 2, false, true);
      Next(link, at4) == Returned(LocalPage(4), at4)
  {
  }

  /** With a lookahead of 0 the readiness event and the deque disagree: `prev()` sets `next_ready`
      although nothing fits in the forward deque, so the next `next()` pops an empty deque. */
  lemma ZeroLookaheadPopsEmpty()
    ensures var link := Local((n: int) => true);
      var b := CommitPrev(link, Init(LocalPage(0), 0, 1), LocalPage(-1));
      var back := Prev(link, b);
      && back.Returned? && back.after.nextQueue == [] && back.after.nextReady
      && Next(link, back.after).PopFromEmpty?
  {
  }
}
