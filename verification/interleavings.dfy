/** Interleavings of the consumer's calls with the background loop of `QueueThread.run`. One loop
    iteration takes four locked steps (select forward, commit forward, select backward, commit
    backward); the consumer may call `next()`/`prev()` any number of times before each of them. */
module Interleavings {
  import opened Wrappers
  import opened Pages
  import opened QueueThread

  /** A call made by the consumer. */
  datatype Call = NextCall | PrevCall

  /** The buffer after one consumer call; a call that blocks changes nothing and takes effect at a
      later step. */
  function Apply<P>(link: Linkage<P>, b: Buffer<P>, c: Call): (r: Buffer<P>)
    ensures r.nextCap == b.nextCap && r.prevCap == b.prevCap
  {
    match c
    case NextCall => Settle(Next(link, b), b)
    case PrevCall => Settle(Prev(link, b), b)
  }

  /** The buffer after a sequence of consumer calls, made in order. */
  function Run<P>(link: Linkage<P>, b: Buffer<P>, calls: seq<Call>): (r: Buffer<P>)
    ensures r.nextCap == b.nextCap && r.prevCap == b.prevCap
    decreases |calls|
  {
    if |calls| == 0 then b else Run(link, Apply(link, b, calls[0]), calls[1..])
  }

  /** The calls the consumer makes around one iteration of the background loop: before the forward
      select, while the forward page is being loaded, before the backward select, and while the
      backward page is being loaded. */
  datatype Schedule = Schedule(
    beforeNext: seq<Call>,
    duringNext: seq<Call>,
    beforePrev: seq<Call>,
    duringPrev: seq<Call>)

  /** The commit of a forward fetch, if one was made. */
  function CommitFetchedNext<P>(link: Linkage<P>, b: Buffer<P>, fetched: Option<P>): Buffer<P> {
    match fetched
    case Some(p) => CommitNext(link, b, p)
    case None => b
  }

  /** The commit of a backward fetch, if one was made. */
  function CommitFetchedPrev<P>(link: Linkage<P>, b: Buffer<P>, fetched: Option<P>): Buffer<P> {
    match fetched
    case Some(p) => CommitPrev(link, b, p)
    case None => b
  }

  /** The buffer part-way through one iteration of the loop in `run`, interleaved with the
      consumer's calls as `s` says, after the first `steps` of its six stages: the calls before the
      forward select, the calls while the forward page loads, the forward commit, the calls before
      the backward select, the calls while the backward page loads, and the backward commit. Each
      page loaded is decided from the buffer as it was at select time, and it is committed against
      the buffer as it is after the calls made meanwhile. */
  function Partial<P>(link: Linkage<P>, b: Buffer<P>, s: Schedule, steps: nat): (r: Buffer<P>)
    ensures r.nextCap == b.nextCap && r.prevCap == b.prevCap
  {
    var b0 := Run(link, b, s.beforeNext);
    var loadingNext := Run(link, b0, s.duringNext);
    var b1 := CommitFetchedNext(link, loadingNext, FetchNext(link, b0));
    var b2 := Run(link, b1, s.beforePrev);
    var loadingPrev := Run(link, b2, s.duringPrev);
    if steps == 0 then b
    else if steps == 1 then b0
    else if steps == 2 then loadingNext
    else if steps == 3 then b1
    else if steps == 4 then b2
    else if steps == 5 then loadingPrev
    else Iteration(link, b, s)
  }

  /** One whole iteration of the loop in `run`, interleaved with the consumer's calls as `s` says. */
  function Iteration<P>(link: Linkage<P>, b: Buffer<P>, s: Schedule): (r: Buffer<P>)
    ensures r.nextCap == b.nextCap && r.prevCap == b.prevCap
  {
    var b0 := Run(link, b, s.beforeNext);
    var b1 := CommitFetchedNext(link, Run(link, b0, s.duringNext), FetchNext(link, b0));
    var b2 := Run(link, b1, s.beforePrev);
    CommitFetchedPrev(link, Run(link, b2, s.duringPrev), FetchPrev(link, b2))
  }

  /** Any number of loop iterations, each interleaved with the consumer's calls. */
  function Session<P>(link: Linkage<P>, b: Buffer<P>, schedules: seq<Schedule>): (r: Buffer<P>)
    ensures r.nextCap == b.nextCap && r.prevCap == b.prevCap
    decreases |schedules|
  {
    if |schedules| == 0 then b else Session(link, Iteration(link, b, schedules[0]), schedules[1..])
  }

  /** Consumer calls keep the invariant, and none of them ever pops an empty deque. */
  lemma {:induction false} RunKeepsInv<P>(link: Linkage<P>, b: Buffer<P>, calls: seq<Call>)
    requires Inv(link, b)
    ensures Inv(link, Run(link, b, calls))
    ensures forall i | 0 <= i < |calls| ::
      !(calls[i] == NextCall && Next(link, Run(link, b, calls[..i])).PopFromEmpty?)
      && !(calls[i] == PrevCall && Prev(link, Run(link, b, calls[..i])).PopFromEmpty?)
    decreases |calls|
  {
    if |calls| > 0 {
      var b' := Apply(link, b, calls[0]);
      NextKeepsInv(link, b);
      PrevKeepsInv(link, b);
      RunKeepsInv(link, b', calls[1..]);
      forall i | 0 <= i < |calls|
        ensures !(calls[i] == NextCall && Next(link, Run(link, b, calls[..i])).PopFromEmpty?)
        ensures !(calls[i] == PrevCall && Prev(link, Run(link, b, calls[..i])).PopFromEmpty?)
      {
        if i > 0 {
          assert calls[..i][1..] == calls[1..][..i - 1];
          assert calls[1..][i - 1] == calls[i];
        }
      }
    }
  }

  /** The key claim: a page loaded for the forward deque may be committed after any consumer calls,
      and the buffer still forms one contiguous run within its bounds. */
  lemma StaleFetchNextKeepsInv<P>(link: Linkage<P>, b: Buffer<P>, meanwhile: seq<Call>)
    requires Inv(link, b)
    ensures Inv(link, CommitFetchedNext(link, Run(link, b, meanwhile), FetchNext(link, b)))
  {
    RunKeepsInv(link, b, meanwhile);
    var fetched := FetchNext(link, b);
    if fetched.Some? {
      CommitNextKeepsInv(link, Run(link, b, meanwhile), fetched.value);
    }
  }

  /** The same for a page loaded for the backward deque, given symmetric adjacency tests. */
  lemma StaleFetchPrevKeepsInv<P(!new)>(link: Linkage<P>, b: Buffer<P>, meanwhile: seq<Call>)
    requires Symmetric(link)
    requires Inv(link, b)
    ensures Inv(link, CommitFetchedPrev(link, Run(link, b, meanwhile), FetchPrev(link, b)))
  {
    RunKeepsInv(link, b, meanwhile);
    var fetched := FetchPrev(link, b);
    if fetched.Some? {
      CommitPrevKeepsInv(link, Run(link, b, meanwhile), fetched.value);
    }
  }

  /** Every stage of a loop iteration, however the consumer's calls fall around it, keeps the
      invariant. */
  lemma PartialKeepsInv<P(!new)>(link: Linkage<P>, b: Buffer<P>, s: Schedule, steps: nat)
    requires Symmetric(link)
    requires Inv(link, b)
    ensures Inv(link, Partial(link, b, s, steps))
  {
    var b0 := Run(link, b, s.beforeNext);
    RunKeepsInv(link, b, s.beforeNext);
    RunKeepsInv(link, b0, s.duringNext);
    StaleFetchNextKeepsInv(link, b0, s.duringNext);
    var b1 := CommitFetchedNext(link, Run(link, b0, s.duringNext), FetchNext(link, b0));
    RunKeepsInv(link, b1, s.beforePrev);
    var b2 := Run(link, b1, s.beforePrev);
    RunKeepsInv(link, b2, s.duringPrev);
    StaleFetchPrevKeepsInv(link, b2, s.duringPrev);
  }

  /** One whole loop iteration, however the consumer's calls fall around it, keeps the invariant. */
  lemma IterationKeepsInv<P(!new)>(link: Linkage<P>, b: Buffer<P>, s: Schedule)
    requires Symmetric(link)
    requires Inv(link, b)
    ensures Inv(link, Iteration(link, b, s))
  {
    PartialKeepsInv(link, b, s, 6);
  }

  /** The state at the end of any number of whole loop iterations satisfies the invariant: the
      pages form one contiguous run around the current page and neither deque exceeds its bound. */
  lemma {:induction false} SessionKeepsInv<P(!new)>(link: Linkage<P>, b: Buffer<P>, schedules: seq<Schedule>)
    requires Symmetric(link)
    requires Inv(link, b)
    ensures Inv(link, Session(link, b, schedules))
    decreases |schedules|
  {
    if |schedules| > 0 {
      IterationKeepsInv(link, b, schedules[0]);
      SessionKeepsInv(link, Iteration(link, b, schedules[0]), schedules[1..]);
    }
  }

  /** A state reached from `b`: any number of whole loop iterations, then part of one more. Since
      every stage may be preceded by any consumer calls, this covers every state the buffer can
      pass through. */
  function Reached<P>(link: Linkage<P>, b: Buffer<P>, schedules: seq<Schedule>, last: Schedule, steps: nat)
    : (r: Buffer<P>)
    ensures r.nextCap == b.nextCap && r.prevCap == b.prevCap
  {
    Partial(link, Session(link, b, schedules), last, steps)
  }

  /** Every state reachable from a buffer satisfying the invariant satisfies it too, also in the
      middle of a loop iteration. */
  lemma ReachedKeepsInv<P(!new)>(link: Linkage<P>, b: Buffer<P>, schedules: seq<Schedule>, last: Schedule, steps: nat)
    requires Symmetric(link)
    requires Inv(link, b)
    ensures Inv(link, Reached(link, b, schedules, last, steps))
  {
    SessionKeepsInv(link, b, schedules);
    PartialKeepsInv(link, Session(link, b, schedules), last, steps);
  }
}
