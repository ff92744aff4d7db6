/** The bidirectional prefetch buffer `QueueThread` of page_api.py as a sequential state machine.
    Every `with self.block_thread:` block is one atomic transition on an immutable `Buffer`; the
    background loop's fetch is split into a select step (pick the page whose neighbour to load)
    and a commit step (validate the loaded page and append it), with any number of other steps
    in between. */
module QueueThread {
  import opened Wrappers
  import opened Pages
  import opened Chains
  import opened Deques

  /** The state shared by the consumer and the background loop:
      - `current`: the page on screen;
      - `nextQueue`: pages fetched ahead, nearest first (`next_queue`);
      - `prevQueue`: pages fetched behind, farthest first and nearest last (`prev_queue`);
      - `nextCap`, `prevCap`: the deques' `maxlen`;
      - `nextReady`, `prevReady`: the `next_ready` / `prev_ready` events. */
  datatype Buffer<P> = Buffer(
    current: P,
    nextQueue: seq<P>,
    prevQueue: seq<P>,
    nextCap: nat,
    prevCap: nat,
    nextReady: bool,
    prevReady: bool)

  /** All pages the buffer knows, in reading order: those behind, the current one, those ahead. */
  function Window<P>(b: Buffer<P>): seq<P> {
    b.prevQueue + [b.current] + b.nextQueue
  }

  /** The deques respect their bounds, both bounds are positive, and each readiness event is set
      exactly when its deque has a page to pop. */
  predicate WellFormed<P>(b: Buffer<P>) {
    && 0 < b.nextCap && 0 < b.prevCap
    && |b.nextQueue| <= b.nextCap && |b.prevQueue| <= b.prevCap
    && b.nextReady == (|b.nextQueue| > 0)
    && b.prevReady == (|b.prevQueue| > 0)
  }

  /** The buffer's pages form one contiguous run around the current page. */
  ghost predicate Chained<P>(link: Linkage<P>, b: Buffer<P>) {
    Linked(link, Window(b))
  }

  ghost predicate Inv<P>(link: Linkage<P>, b: Buffer<P>) {
    WellFormed(b) && Chained(link, b)
  }

  /** `QueueThread(initial_page, next_pages, prev_pages)`: empty deques, neither event set. */
  function Init<P>(initial: P, nextPages: nat, prevPages: nat): (b: Buffer<P>)
    ensures Window(b) == [initial]
    ensures WellFormed(b) <==> 0 < nextPages && 0 < prevPages
    ensures b.nextCap == nextPages && b.prevCap == prevPages
  {
    Buffer(initial, [], [], nextPages, prevPages, false, false)
  }

  /** A fresh buffer with positive bounds satisfies the invariant for any linkage. */
  lemma InitInv<P>(link: Linkage<P>, initial: P, nextPages: nat, prevPages: nat)
    requires 0 < nextPages && 0 < prevPages
    ensures Inv(link, Init(initial, nextPages, prevPages))
  {
  }

  /** What a call to `next()` or `prev()` does:
      - `Returned`: the call returns `page`, leaving the buffer as `after`;
      - `Waiting`: the call is blocked on its readiness event and has changed nothing yet;
      - `PopFromEmpty`: the pop raised `IndexError`, leaving the buffer as `after`. */
  datatype Nav<P> =
    | Returned(page: P, after: Buffer<P>)
    | Waiting
    | PopFromEmpty(after: Buffer<P>)

  /** The buffer after a navigation call has run (a blocked call has not changed it). */
  function Settle<P>(n: Nav<P>, b: Buffer<P>): Buffer<P> {
    match n
    case Returned(_, a) => a
    case Waiting => b
    case PopFromEmpty(a) => a
  }

  /** `next()`: at the last page nothing happens; otherwise, once `next_ready` is set, the current page
      goes to the right end of the backward deque, the front of the forward deque becomes current,
      and `next_ready` is cleared when the forward deque runs empty. */
  function Next<P>(link: Linkage<P>, b: Buffer<P>): (r: Nav<P>)
    ensures !link.hasNext(b.current) ==> r == Returned(b.current, b)
    ensures r.Waiting? <==> link.hasNext(b.current) && !b.nextReady
    ensures r.PopFromEmpty? <==> link.hasNext(b.current) && b.nextReady && |b.nextQueue| == 0
    ensures r.Returned? ==> r.page == r.after.current
    ensures r.Returned? && link.hasNext(b.current) ==>
      && r.after.current == b.nextQueue[0]
      && |r.after.prevQueue| == Min(|b.prevQueue| + 1, b.prevCap)
      && r.after.nextCap == b.nextCap && r.after.prevCap == b.prevCap
      && r.after.nextReady == (|r.after.nextQueue| > 0) && r.after.prevReady
  {
    if !link.hasNext(b.current) then Returned(b.current, b)
    else if !b.nextReady then Waiting
    else
      var pq := PushRight(b.prevQueue, b.prevCap, b.current);
      if |b.nextQueue| == 0 then PopFromEmpty(b.(prevQueue := pq, prevReady := true))
      else
        var nq := b.nextQueue[1..];
        Returned(b.nextQueue[0], b.(
          current := b.nextQueue[0],
          nextQueue := nq,
          prevQueue := pq,
          prevReady := true,
          nextReady := |nq| > 0))
  }

  /** `prev()`: the mirror image of `next()`, gated by `has_prev` and `prev_ready`; the current page
      goes to the left end of the forward deque and the right end of the backward deque becomes current. */
  function Prev<P>(link: Linkage<P>, b: Buffer<P>): (r: Nav<P>)
    ensures !link.hasPrev(b.current) ==> r == Returned(b.current, b)
    ensures r.Waiting? <==> link.hasPrev(b.current) && !b.prevReady
    ensures r.PopFromEmpty? <==> link.hasPrev(b.current) && b.prevReady && |b.prevQueue| == 0
    ensures r.Returned? ==> r.page == r.after.current
    ensures r.Returned? && link.hasPrev(b.current) ==>
      && r.after.current == b.prevQueue[|b.prevQueue| - 1]
      && |r.after.nextQueue| == Min(|b.nextQueue| + 1, b.nextCap)
      && r.after.nextCap == b.nextCap && r.after.prevCap == b.prevCap
      && r.after.prevReady == (|r.after.prevQueue| > 0) && r.after.nextReady
  {
    if !link.hasPrev(b.current) then Returned(b.current, b)
    else if !b.prevReady then Waiting
    else
      var nq := PushLeft(b.current, b.nextQueue, b.nextCap);
      if |b.prevQueue| == 0 then PopFromEmpty(b.(nextQueue := nq, nextReady := true))
      else
        var last := |b.prevQueue| - 1;
        var pq := b.prevQueue[..last];
        Returned(b.prevQueue[last], b.(
          current := b.prevQueue[last],
          prevQueue := pq,
          nextQueue := nq,
          nextReady := true,
          prevReady := |pq| > 0))
  }

  /** The farthest page known ahead: the right end of the forward deque, or the current page. */
  function Front<P>(b: Buffer<P>): P {
    if |b.nextQueue| == 0 then b.current else b.nextQueue[|b.nextQueue| - 1]
  }

  /** The farthest page known behind: the left end of the backward deque, or the current page. */
  function Back<P>(b: Buffer<P>): P {
    if |b.prevQueue| == 0 then b.current else b.prevQueue[0]
  }

  /** Select step of the forward half of the loop: no candidate while the forward deque is full,
      otherwise the last page of the window, whose successor is to be fetched. */
  function SelectNext<P>(b: Buffer<P>): (r: Option<P>)
    ensures r.None? <==> |b.nextQueue| == b.nextCap
    ensures r.Some? ==> r.value == Window(b)[|Window(b)| - 1]
  {
    if |b.nextQueue| == b.nextCap then None else Some(Front(b))
  }

  /** Select step of the backward half: no candidate while the backward deque is full, otherwise
      the first page of the window. */
  function SelectPrev<P>(b: Buffer<P>): (r: Option<P>)
    ensures r.None? <==> |b.prevQueue| == b.prevCap
    ensures r.Some? ==> r.value == Window(b)[0]
  {
    if |b.prevQueue| == b.prevCap then None else Some(Back(b))
  }

  /** The page the forward half loads outside the lock: the successor of the selected candidate,
      when that candidate has one. */
  function FetchNext<P>(link: Linkage<P>, b: Buffer<P>): (r: Option<P>)
    ensures r.Some? <==> |b.nextQueue| != b.nextCap && link.hasNext(Window(b)[|Window(b)| - 1])
    ensures r.Some? ==> r.value == link.next(Window(b)[|Window(b)| - 1])
  {
    match SelectNext(b)
    case Some(c) => if link.hasNext(c) then Some(link.next(c)) else None
    case None => None
  }

  /** The page the backward half loads outside the lock. */
  function FetchPrev<P>(link: Linkage<P>, b: Buffer<P>): (r: Option<P>)
    ensures r.Some? <==> |b.prevQueue| != b.prevCap && link.hasPrev(Window(b)[0])
    ensures r.Some? ==> r.value == link.prev(Window(b)[0])
  {
    match SelectPrev(b)
    case Some(c) => if link.hasPrev(c) then Some(link.prev(c)) else None
    case None => None
  }

  /** `can_append_next(page)`: the forward deque has room and `page` comes right after the last page
      of the window as it is now. */
  function CanAppendNext<P>(link: Linkage<P>, b: Buffer<P>, page: P): (r: bool)
    ensures r <==> |b.nextQueue| != b.nextCap && link.isNext(Window(b)[|Window(b)| - 1], page)
  {
    if |b.nextQueue| == b.nextCap then false
    else if |b.nextQueue| == 0 then link.isNext(b.current, page)
    else link.isNext(b.nextQueue[|b.nextQueue| - 1], page)
  }

  /** `can_append_prev(page)`: the backward deque has room and `page` comes right before the first
      page of the window as it is now. */
  function CanAppendPrev<P>(link: Linkage<P>, b: Buffer<P>, page: P): (r: bool)
    ensures r <==> |b.prevQueue| != b.prevCap && link.isPrev(Window(b)[0], page)
  {
    if |b.prevQueue| == b.prevCap then false
    else if |b.prevQueue| == 0 then link.isPrev(b.current, page)
    else link.isPrev(b.prevQueue[0], page)
  }

  /** Commit step of the forward half: a loaded page that passes `can_append_next` is appended to
      the forward deque and `next_ready` is set; any other page is dropped. */
  function CommitNext<P>(link: Linkage<P>, b: Buffer<P>, page: P): (r: Buffer<P>)
    ensures !CanAppendNext(link, b, page) ==> r == b
    ensures CanAppendNext(link, b, page) && |b.nextQueue| <= b.nextCap ==>
      && Window(r) == Window(b) + [page]
      && r.current == b.current && r.prevQueue == b.prevQueue && r.prevReady == b.prevReady
      && r.nextCap == b.nextCap && r.prevCap == b.prevCap && r.nextReady
  {
    if CanAppendNext(link, b, page) then
      b.(nextQueue := PushRight(b.nextQueue, b.nextCap, page), nextReady := true)
    else b
  }

  /** Commit step of the backward half: a page passing `can_append_prev` goes to the left end of
      the backward deque and `prev_ready` is set; any other page is dropped. */
  function CommitPrev<P>(link: Linkage<P>, b: Buffer<P>, page: P): (r: Buffer<P>)
    ensures !CanAppendPrev(link, b, page) ==> r == b
    ensures CanAppendPrev(link, b, page) && |b.prevQueue| <= b.prevCap ==>
      && Window(r) == [page] + Window(b)
      && r.current == b.current && r.nextQueue == b.nextQueue && r.nextReady == b.nextReady
      && r.nextCap == b.nextCap && r.prevCap == b.prevCap && r.prevReady
  {
    if CanAppendPrev(link, b, page) then
      b.(prevQueue := PushLeft(page, b.prevQueue, b.prevCap), prevReady := true)
    else b
  }

  /** A move forward only shifts the current position inside the window: the window is unchanged
      while the backward deque has room, and loses its first (farthest behind) page when it is full. */
  lemma NextShiftsWindow<P>(link: Linkage<P>, b: Buffer<P>)
    requires link.hasNext(b.current) && Next(link, b).Returned?
    ensures var a := Next(link, b).after;
      && (|b.prevQueue| < b.prevCap ==> Window(a) == Window(b))
      && (0 < b.prevCap == |b.prevQueue| ==> Window(a) == Window(b)[1..])
  {
    var pq := PushRight(b.prevQueue, b.prevCap, b.current);
    var a := b.(current := b.nextQueue[0], nextQueue := b.nextQueue[1..], prevQueue := pq,
                prevReady := true, nextReady := |b.nextQueue| > 1);
    assert Next(link, b) == Returned(a.current, a);
    assert b.nextQueue == [a.current] + a.nextQueue;
    if |b.prevQueue| < b.prevCap {
      assert pq == b.prevQueue + [b.current];
      assert Window(a) == b.prevQueue + [b.current] + ([a.current] + a.nextQueue);
    } else if 0 < b.prevCap == |b.prevQueue| {
      assert pq == b.prevQueue[1..] + [b.current];
      assert b.prevQueue == [b.prevQueue[0]] + b.prevQueue[1..];
      assert Window(b) == [b.prevQueue[0]] + Window(a);
    }
  }

  /** A move backward only shifts the current position inside the window: the window is unchanged
      while the forward deque has room, and loses its last (farthest ahead) page when it is full. */
  lemma PrevShiftsWindow<P>(link: Linkage<P>, b: Buffer<P>)
    requires link.hasPrev(b.current) && Prev(link, b).Returned?
    ensures var a := Prev(link, b).after;
      && (|b.nextQueue| < b.nextCap ==> Window(a) == Window(b))
      && (0 < b.nextCap == |b.nextQueue| ==> Window(a) == Window(b)[..|Window(b)| - 1])
  {
    var last := |b.prevQueue| - 1;
    var nq := PushLeft(b.current, b.nextQueue, b.nextCap);
    var a := b.(current := b.prevQueue[last], prevQueue := b.prevQueue[..last], nextQueue := nq,
                nextReady := true, prevReady := last > 0);
    assert Prev(link, b) == Returned(a.current, a);
    assert b.prevQueue == a.prevQueue + [a.current];
    if |b.nextQueue| < b.nextCap {
      assert nq == [b.current] + b.nextQueue;
      assert Window(a) == (a.prevQueue + [a.current]) + [b.current] + b.nextQueue;
    } else if 0 < b.nextCap == |b.nextQueue| {
      var n := |b.nextQueue|;
      assert nq == [b.current] + b.nextQueue[..n - 1];
      assert b.nextQueue == b.nextQueue[..n - 1] + [b.nextQueue[n - 1]];
      assert Window(b) == Window(a) + [b.nextQueue[n - 1]];
    }
  }

  /** `next()` never pops an empty deque from a well-formed buffer, and it keeps the invariant. */
  lemma NextKeepsInv<P>(link: Linkage<P>, b: Buffer<P>)
    requires Inv(link, b)
    ensures !Next(link, b).PopFromEmpty?
    ensures Inv(link, Settle(Next(link, b), b))
  {
    var r := Next(link, b);
    if r.Returned? && link.hasNext(b.current) {
      NextShiftsWindow(link, b);
      LinkedSlice(link, Window(b), |Window(b)| - |Window(r.after)|, |Window(b)|);
    }
  }

  /** `prev()` never pops an empty deque from a well-formed buffer, and it keeps the invariant. */
  lemma PrevKeepsInv<P>(link: Linkage<P>, b: Buffer<P>)
    requires Inv(link, b)
    ensures !Prev(link, b).PopFromEmpty?
    ensures Inv(link, Settle(Prev(link, b), b))
  {
    var r := Prev(link, b);
    if r.Returned? && link.hasPrev(b.current) {
      PrevShiftsWindow(link, b);
      LinkedSlice(link, Window(b), 0, |Window(r.after)|);
    }
  }

  /** Validate-on-append keeps the invariant whatever page is offered, stale or not. */
  lemma CommitNextKeepsInv<P>(link: Linkage<P>, b: Buffer<P>, page: P)
    requires Inv(link, b)
    ensures Inv(link, CommitNext(link, b, page))
  {
    if CanAppendNext(link, b, page) {
      LinkedSnoc(link, Window(b), page);
    }
  }

  /** The backward check uses `is_prev` while the chain is stated with `is_next`, so keeping the
      invariant needs the two tests to agree. */
  lemma CommitPrevKeepsInv<P(!new)>(link: Linkage<P>, b: Buffer<P>, page: P)
    requires Symmetric(link)
    requires Inv(link, b)
    ensures Inv(link, CommitPrev(link, b, page))
  {
    if CanAppendPrev(link, b, page) {
      assert link.isNext(page, Window(b)[0]);
      LinkedCons(link, page, Window(b));
    }
  }

  /** No out-of-order page becomes current: the page `next()` moves to is the successor of the page
      it leaves, and with symmetric linkage the page left is its predecessor. */
  lemma NextFollowsChain<P(!new)>(link: Linkage<P>, b: Buffer<P>)
    requires Inv(link, b)
    requires link.hasNext(b.current) && Next(link, b).Returned?
    ensures link.isNext(b.current, Next(link, b).page)
    ensures Symmetric(link) ==> link.isPrev(Next(link, b).page, b.current)
  {
    var w := Window(b);
    var i := |b.prevQueue|;
    assert w[i] == b.current && w[i + 1] == b.nextQueue[0];
  }

  /** The mirror image for `prev()`. */
  lemma PrevFollowsChain<P(!new)>(link: Linkage<P>, b: Buffer<P>)
    requires Inv(link, b)
    requires link.hasPrev(b.current) && Prev(link, b).Returned?
    ensures link.isNext(Prev(link, b).page, b.current)
    ensures Symmetric(link) ==> link.isPrev(b.current, Prev(link, b).page)
  {
    var w := Window(b);
    var i := |b.prevQueue| - 1;
    assert w[i] == b.prevQueue[i] && w[i + 1] == b.current;
  }

  /** `next()` then `prev()`, both past their guards, restore the current page, the forward deque
      and the events; the backward deque comes back too, unless it was full, in which case it has
      lost its farthest page. */
  lemma NextThenPrev<P>(link: Linkage<P>, b: Buffer<P>)
    requires WellFormed(b)
    requires link.hasNext(b.current) && Next(link, b).Returned?
    requires link.hasPrev(Next(link, b).after.current)
    ensures var r := Prev(link, Next(link, b).after);
      && r.Returned? && r.page == b.current
      && r.after.current == b.current
      && r.after.nextQueue == b.nextQueue
      && r.after.prevQueue == (if |b.prevQueue| == b.prevCap then b.prevQueue[1..] else b.prevQueue)
      && r.after.nextReady == b.nextReady
      && r.after.prevReady == (|r.after.prevQueue| > 0)
      && r.after.nextCap == b.nextCap && r.after.prevCap == b.prevCap
  {
    var pq := PushRight(b.prevQueue, b.prevCap, b.current);
    var a := b.(current := b.nextQueue[0], nextQueue := b.nextQueue[1..], prevQueue := pq,
                prevReady := true, nextReady := |b.nextQueue| > 1);
    assert Next(link, b) == Returned(a.current, a);
    PushRightThenPop(b.prevQueue, b.prevCap, b.current);
    var last := |pq| - 1;
    var nq := PushLeft(a.current, a.nextQueue, a.nextCap);
    assert nq == b.nextQueue;
    var c := a.(current := pq[last], prevQueue := pq[..last], nextQueue := nq,
                nextReady := true, prevReady := last > 0);
    assert Prev(link, a) == Returned(b.current, c);
  }

  /** `prev()` then `next()`, both past their guards, restore the current page, the backward deque
      and the events; the forward deque comes back too, unless it was full, in which case it has
      lost its farthest page. */
  lemma PrevThenNext<P>(link: Linkage<P>, b: Buffer<P>)
    requires WellFormed(b)
    requires link.hasPrev(b.current) && Prev(link, b).Returned?
    requires link.hasNext(Prev(link, b).after.current)
    ensures var r := Next(link, Prev(link, b).after);
      && r.Returned? && r.page == b.current
      && r.after.current == b.current
      && r.after.prevQueue == b.prevQueue
      && r.after.nextQueue == (if |b.nextQueue| == b.nextCap then b.nextQueue[..|b.nextQueue| - 1] else b.nextQueue)
      && r.after.prevReady == b.prevReady
      && r.after.nextReady == (|r.after.nextQueue| > 0)
      && r.after.nextCap == b.nextCap && r.after.prevCap == b.prevCap
  {
    var a := Prev(link, b).after;
    var last := |b.prevQueue| - 1;
    assert a.current == b.prevQueue[last] && a.prevQueue == b.prevQueue[..last];
    assert a.nextQueue == PushLeft(b.current, b.nextQueue, b.nextCap);
    PushLeftThenPop(b.current, b.nextQueue, b.nextCap);
    var r := Next(link, a);
    assert r.after.prevQueue == PushRight(a.prevQueue, a.prevCap, a.current);
    assert r.after.prevQueue == b.prevQueue[..last] + [b.prevQueue[last]];
  }

  /** A linkage whose loaded neighbours pass the adjacency tests against the page they were loaded from. */
  ghost predicate Coherent<P(!new)>(link: Linkage<P>) {
    forall p: P :: link.isNext(p, link.next(p)) && link.isPrev(p, link.prev(p))
  }

  /** Without intervening navigation, a fetched page is accepted: the forward window grows by it. */
  lemma FreshFetchNextAppended<P(!new)>(link: Linkage<P>, b: Buffer<P>)
    requires Coherent(link) && Inv(link, b)
    requires FetchNext(link, b).Some?
    ensures Window(CommitNext(link, b, FetchNext(link, b).value)) == Window(b) + [FetchNext(link, b).value]
  {
    var w := Window(b);
    assert link.isNext(w[|w| - 1], link.next(w[|w| - 1]));
  }

  /** Without intervening navigation, a page fetched backward is accepted: the window grows by it on the left. */
  lemma FreshFetchPrevAppended<P(!new)>(link: Linkage<P>, b: Buffer<P>)
    requires Coherent(link) && Inv(link, b)
    requires FetchPrev(link, b).Some?
    ensures Window(CommitPrev(link, b, FetchPrev(link, b).value)) == [FetchPrev(link, b).value] + Window(b)
  {
    var w := Window(b);
    assert link.isPrev(w[0], link.prev(w[0]));
  }
}
