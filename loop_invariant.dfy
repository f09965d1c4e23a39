/**
 * The invariant of the filter loop, stated on values: after visiting the
 * first `k` frames of the framing walk, the cursor, the output and the
 * counters are those of those frames. Each turn of the loop keeps it, and
 * where the loop stops it has visited the whole walk.
 */
module LoopInvariant {
  import opened BmpHeader
  import opened FilterMap
  import opened Stats
  import opened Framing

  /** The variables the loop updates: the cursor, the bytes written so far and the two counter sets. */
  datatype LoopState = LoopState(head: nat, output: seq<Byte>, counters: Counters)

  /**
   * The loop's variables once it has visited the first `k` of `frames`:
   * the cursor at their end, and their output and counters.
   */
  function Visited(buf: seq<Byte>, filterMap: map<int, bool>, frames: seq<Frame>, k: nat): LoopState
    requires k <= |frames|
  {
    LoopState(End(0, frames[..k]), Output(buf, filterMap, frames[..k]), Tally(filterMap, frames[..k]))
  }

  /**
   * One turn of the loop on the next frame, of a known type that is kept:
   * copying its bytes, bumping its kept counter and moving the cursor by
   * its length visits that frame.
   */
  lemma VisitKept(buf: seq<Byte>, filterMap: map<int, bool>, frames: seq<Frame>, k: nat, h: CommonHeader)
    requires k < |frames| && frames[k] == Frame(End(0, frames[..k]), h)
    requires IsKnownType(h.msgType) && Kept(filterMap, h.msgType)
    ensures var v := Visited(buf, filterMap, frames, k);
      Visited(buf, filterMap, frames, k + 1)
        == LoopState(v.head + h.length, v.output + Slice(buf, v.head, v.head + h.length),
                     Counters(Bump(v.counters.kept, h.msgType), v.counters.discarded))
  {
    assert frames[..k + 1][k] == frames[k];
    OutputKeptNext(buf, filterMap, frames, k);
    TallyKeptNext(filterMap, frames, k);
  }

  /**
   * One turn of the loop on the next frame, of a known type that is
   * discarded: bumping its discarded counter and moving the cursor by its
   * length visits that frame, and nothing is written.
   */
  lemma VisitDiscarded(buf: seq<Byte>, filterMap: map<int, bool>, frames: seq<Frame>, k: nat, h: CommonHeader)
    requires k < |frames| && frames[k] == Frame(End(0, frames[..k]), h)
    requires IsKnownType(h.msgType) && !Kept(filterMap, h.msgType)
    ensures var v := Visited(buf, filterMap, frames, k);
      Visited(buf, filterMap, frames, k + 1)
        == LoopState(v.head + h.length, v.output, Counters(v.counters.kept, Bump(v.counters.discarded, h.msgType)))
  {
    assert frames[..k + 1][k] == frames[k];
    OutputDiscardedNext(buf, filterMap, frames, k);
    TallyDiscardedNext(filterMap, frames, k);
  }

  /**
   * Where the loop stops on the walk's frames, at the end of the buffer or
   * on bytes that do not advance, it has visited the whole walk, and the
   * walk stopped there for the reason those bytes give.
   */
  lemma VisitEnd(buf: seq<Byte>, filterMap: map<int, bool>, k: nat)
    requires k <= |Walk(buf, 0).frames|
    requires var e := Visited(buf, filterMap, Walk(buf, 0).frames, k).head; e < |buf| ==> !Advances(buf, e)
    ensures var w := Walk(buf, 0); var e := Visited(buf, filterMap, w.frames, k).head;
      && w.halt == (if e >= |buf| then Finished else Failed(ErrorAt(buf, e)))
      && Visited(buf, filterMap, w.frames, k).output == Output(buf, filterMap, w.frames)
      && Visited(buf, filterMap, w.frames, k).counters == Tally(filterMap, w.frames)
  {
    WalkAt(buf, k);
    var w := Walk(buf, 0);
    if k == |w.frames| {
      assert w.frames[..k] == w.frames;
    }
  }

  /**
   * A turn of the loop on the walk, at a cursor holding a complete header
   * of a known type and positive length that is kept: the walk has a next
   * frame, and visiting it copies the message, bumps its kept counter and
   * moves the cursor by its length.
   */
  lemma StepKept(buf: seq<Byte>, filterMap: map<int, bool>, k: nat, v: LoopState, h: CommonHeader)
    requires k <= |Walk(buf, 0).frames| && v == Visited(buf, filterMap, Walk(buf, 0).frames, k)
    requires HeaderAt(buf, v.head) == Some(h) && IsKnownType(h.msgType) && h.length > 0
    requires Kept(filterMap, h.msgType)
    ensures k < |Walk(buf, 0).frames|
    ensures Visited(buf, filterMap, Walk(buf, 0).frames, k + 1)
      == LoopState(v.head + h.length, v.output + Slice(buf, v.head, v.head + h.length),
                   Counters(Bump(v.counters.kept, h.msgType), v.counters.discarded))
  {
    WalkStep(buf, k);
    VisitKept(buf, filterMap, Walk(buf, 0).frames, k, h);
  }

  /**
   * A turn of the loop on the walk, at a cursor holding a complete header
   * of a known type and positive length that is discarded: the walk has a
   * next frame, and visiting it bumps its discarded counter and moves the
   * cursor by its length.
   */
  lemma StepDiscarded(buf: seq<Byte>, filterMap: map<int, bool>, k: nat, v: LoopState, h: CommonHeader)
    requires k <= |Walk(buf, 0).frames| && v == Visited(buf, filterMap, Walk(buf, 0).frames, k)
    requires HeaderAt(buf, v.head) == Some(h) && IsKnownType(h.msgType) && h.length > 0
    requires !Kept(filterMap, h.msgType)
    ensures k < |Walk(buf, 0).frames|
    ensures Visited(buf, filterMap, Walk(buf, 0).frames, k + 1)
      == LoopState(v.head + h.length, v.output, Counters(v.counters.kept, Bump(v.counters.discarded, h.msgType)))
  {
    WalkStep(buf, k);
    VisitDiscarded(buf, filterMap, Walk(buf, 0).frames, k, h);
  }
}
