/**
 * The loop of `main` exactly as written, one turn of the body at a time,
 * and how it relates to the framing walk: the same cursor, output and
 * counters while the walk advances, the same exception where the walk
 * reports a truncated header or an unknown type, and a cursor that never
 * moves again where the walk reports a declared length of zero.
 */
module LoopAsWritten {
  import opened BmpHeader
  import opened FilterMap
  import opened Stats
  import opened Framing
  import opened LoopInvariant

  const INITIAL := LoopState(0, [], Counters(ZEROS, ZEROS))

  /**
   * One pass of the loop body as written: decode the slice at the cursor
   * (None: IndexError), look the type up (None: KeyError), count and copy,
   * then add the declared length to the cursor, whatever it is.
   */
  function BodyAsWritten(buf: seq<Byte>, filterMap: map<int, bool>, s: LoopState): Option<LoopState> {
    match DecodeCommonHeader(Slice(buf, s.head, s.head + HEADER_SIZE))
    case None => None
    case Some(h) =>
      if h.msgType !in filterMap then None
      else
        var keep := !filterMap[h.msgType];
        Some(LoopState(
          s.head + h.length,
          s.output + (if keep then Slice(buf, s.head, s.head + h.length) else []),
          Record(s.counters, h.msgType, keep)))
  }

  /** The state after `n` more turns of `while head < len(inp_map)`; None once the body has raised. */
  function AfterTurns(buf: seq<Byte>, filterMap: map<int, bool>, n: nat): Option<LoopState> {
    if n == 0 then Some(INITIAL)
    else
      match AfterTurns(buf, filterMap, n - 1)
      case None => None
      case Some(s) => if s.head >= |buf| then Some(s) else BodyAsWritten(buf, filterMap, s)
  }

  /**
   * A complete header of known type at the cursor: one pass of the body
   * copies the message if its type is kept, counts it, and moves the
   * cursor by its declared length.
   */
  lemma BodyDecodes(buf: seq<Byte>, filterMap: map<int, bool>, s: LoopState, h: CommonHeader)
    requires filterMap.Keys == KNOWN_TYPES
    requires HeaderAt(buf, s.head) == Some(h) && IsKnownType(h.msgType)
    ensures var keep := Kept(filterMap, h.msgType);
      BodyAsWritten(buf, filterMap, s)
        == Some(LoopState(s.head + h.length,
                          s.output + (if keep then Slice(buf, s.head, s.head + h.length) else []),
                          Record(s.counters, h.msgType, keep)))
  {
    HeaderAtDecodes(buf, s.head);
  }

  /**
   * On a frame that starts where the first `k` end and sits on a complete
   * header of known type and positive length, the cursor is inside the
   * buffer and one pass of the body visits that frame.
   */
  lemma BodyOnFrame(buf: seq<Byte>, filterMap: map<int, bool>, frames: seq<Frame>, k: nat)
    requires filterMap.Keys == KNOWN_TYPES
    requires k < |frames| && frames[k].offset == End(0, frames[..k]) && OnHeader(buf, frames[k])
    ensures Visited(buf, filterMap, frames, k).head < |buf|
    ensures BodyAsWritten(buf, filterMap, Visited(buf, filterMap, frames, k))
      == Some(Visited(buf, filterMap, frames, k + 1))
  {
    var s, f := Visited(buf, filterMap, frames, k), frames[k];
    BodyDecodes(buf, filterMap, s, f.header);
    var next := Visited(buf, filterMap, frames, k + 1);
    assert next.head == s.head + f.header.length by {
      assert frames[..k + 1][k] == f;
    }
    assert next.output == s.output + Piece(buf, filterMap, f) by {
      OutputNext(buf, filterMap, frames, k);
    }
    assert next.counters == Record(s.counters, f.header.msgType, Kept(filterMap, f.header.msgType)) by {
      assert frames[..k + 1][..k] == frames[..k];
    }
  }

  /** Bytes at the cursor that are too few for a header, or a header of unknown type: the body raises. */
  lemma BodyRaises(buf: seq<Byte>, filterMap: map<int, bool>, s: LoopState)
    requires filterMap.Keys == KNOWN_TYPES
    requires HeaderAt(buf, s.head).None? || !IsKnownType(HeaderAt(buf, s.head).value.msgType)
    ensures BodyAsWritten(buf, filterMap, s) == None
  {
    HeaderAtDecodes(buf, s.head);
  }

  /** A complete header of known type and declared length zero: the body leaves the cursor where it is. */
  lemma BodySpins(buf: seq<Byte>, filterMap: map<int, bool>, s: LoopState)
    requires filterMap.Keys == KNOWN_TYPES
    requires StuckAt(buf, s.head)
    ensures BodyAsWritten(buf, filterMap, s).Some? && BodyAsWritten(buf, filterMap, s).value.head == s.head
  {
    HeaderAtDecodes(buf, s.head);
  }

  /** After as many turns as the walk has frames so far, the as-written loop is where the walk says. */
  lemma {:induction false} LoopFollowsWalk(buf: seq<Byte>, filterMap: map<int, bool>, k: nat)
    requires filterMap.Keys == KNOWN_TYPES
    requires k <= |Walk(buf, 0).frames|
    ensures AfterTurns(buf, filterMap, k) == Some(Visited(buf, filterMap, Walk(buf, 0).frames, k))
  {
    if k > 0 {
      var j := k - 1;
      LoopFollowsWalk(buf, filterMap, j);
      TurnFollowsWalk(buf, filterMap, j);
    }
  }

  /** One turn of the as-written loop where the walk has a next frame visits that frame. */
  lemma TurnFollowsWalk(buf: seq<Byte>, filterMap: map<int, bool>, k: nat)
    requires filterMap.Keys == KNOWN_TYPES
    requires k < |Walk(buf, 0).frames|
    requires AfterTurns(buf, filterMap, k) == Some(Visited(buf, filterMap, Walk(buf, 0).frames, k))
    ensures AfterTurns(buf, filterMap, k + 1) == Some(Visited(buf, filterMap, Walk(buf, 0).frames, k + 1))
  {
    WalkFrameAt(buf, k);
    BodyOnFrame(buf, filterMap, Walk(buf, 0).frames, k);
  }

  /** The as-written loop's state once it has taken one turn per frame of the walk. */
  lemma LoopAtWalkEnd(buf: seq<Byte>, filterMap: map<int, bool>)
    requires filterMap.Keys == KNOWN_TYPES
    ensures var w := Walk(buf, 0);
      AfterTurns(buf, filterMap, |w.frames|)
        == Some(LoopState(End(0, w.frames), Output(buf, filterMap, w.frames), Tally(filterMap, w.frames)))
    ensures HaltsAt(buf, End(0, Walk(buf, 0).frames), Walk(buf, 0).halt)
  {
    var w := Walk(buf, 0);
    LoopFollowsWalk(buf, filterMap, |w.frames|);
    assert w.frames[..|w.frames|] == w.frames;
    WalkHalts(buf, 0);
  }

  /** When the walk finishes, the as-written loop ends with the same cursor, output and counters. */
  lemma FinishedAgrees(buf: seq<Byte>, filterMap: map<int, bool>)
    requires filterMap.Keys == KNOWN_TYPES
    requires Walk(buf, 0).halt == Finished
    ensures var w := Walk(buf, 0); var n := |w.frames|;
      && AfterTurns(buf, filterMap, n).Some?
      && AfterTurns(buf, filterMap, n).value.head >= |buf|
      && AfterTurns(buf, filterMap, n).value.output == Output(buf, filterMap, w.frames)
      && AfterTurns(buf, filterMap, n).value.counters == Tally(filterMap, w.frames)
  {
    LoopAtWalkEnd(buf, filterMap);
  }

  /** A truncated header or an unknown type at the walk's stopping point makes the as-written loop raise. */
  lemma RaisingAgrees(buf: seq<Byte>, filterMap: map<int, bool>)
    requires filterMap.Keys == KNOWN_TYPES
    requires Walk(buf, 0).halt.Failed? && !Walk(buf, 0).halt.error.ZeroLength?
    ensures AfterTurns(buf, filterMap, |Walk(buf, 0).frames| + 1) == None
  {
    var w := Walk(buf, 0);
    LoopAtWalkEnd(buf, filterMap);
    BodyRaises(buf, filterMap, AfterTurns(buf, filterMap, |w.frames|).value);
  }

  /**
   * A declared length of zero at the walk's stopping point: the as-written
   * loop never leaves it. After any number `n` of turns from the walk's
   * frame count on, the cursor is still there, inside the buffer, so the
   * loop condition stays true forever.
   */
  lemma ZeroLengthSpins(buf: seq<Byte>, filterMap: map<int, bool>, n: nat)
    requires filterMap.Keys == KNOWN_TYPES
    requires Walk(buf, 0).halt.Failed? && Walk(buf, 0).halt.error.ZeroLength?
    requires |Walk(buf, 0).frames| <= n
    ensures && AfterTurns(buf, filterMap, n).Some?
            && AfterTurns(buf, filterMap, n).value.head == Walk(buf, 0).halt.error.offset
            && AfterTurns(buf, filterMap, n).value.head < |buf|
  {
    ZeroLengthReached(buf, filterMap);
    SpinsFrom(buf, filterMap, |Walk(buf, 0).frames|, Walk(buf, 0).halt.error.offset, n);
  }

  /** The cursor holds a complete header of known type whose declared length is zero. */
  predicate StuckAt(buf: seq<Byte>, e: nat) {
    && HeaderAt(buf, e).Some?
    && IsKnownType(HeaderAt(buf, e).value.msgType)
    && HeaderAt(buf, e).value.length == 0
  }

  /** After `n` turns the as-written loop has not raised and its cursor is `e`. */
  predicate CursorAfter(buf: seq<Byte>, filterMap: map<int, bool>, n: nat, e: nat) {
    AfterTurns(buf, filterMap, n).Some? && AfterTurns(buf, filterMap, n).value.head == e
  }

  /**
   * Where the walk stops on a declared length of zero, the as-written loop
   * reaches that cursor, which is inside the buffer and stuck.
   */
  lemma ZeroLengthReached(buf: seq<Byte>, filterMap: map<int, bool>)
    requires filterMap.Keys == KNOWN_TYPES
    requires Walk(buf, 0).halt.Failed? && Walk(buf, 0).halt.error.ZeroLength?
    ensures var e := Walk(buf, 0).halt.error.offset;
      CursorAfter(buf, filterMap, |Walk(buf, 0).frames|, e) && e < |buf| && StuckAt(buf, e)
  {
    LoopAtWalkEnd(buf, filterMap);
  }

  /** A turn of the as-written loop at a stuck cursor leaves the cursor there. */
  lemma TurnSpins(buf: seq<Byte>, filterMap: map<int, bool>, n: nat, e: nat)
    requires filterMap.Keys == KNOWN_TYPES
    requires CursorAfter(buf, filterMap, n, e) && e < |buf| && StuckAt(buf, e)
    ensures CursorAfter(buf, filterMap, n + 1, e)
  {
    BodySpins(buf, filterMap, AfterTurns(buf, filterMap, n).value);
  }

  /** Once the as-written loop's cursor is stuck, it is still there after any later turn. */
  lemma {:induction false} SpinsFrom(buf: seq<Byte>, filterMap: map<int, bool>, n: nat, e: nat, m: nat)
    requires filterMap.Keys == KNOWN_TYPES
    requires CursorAfter(buf, filterMap, n, e) && e < |buf| && StuckAt(buf, e)
    requires n <= m
    ensures CursorAfter(buf, filterMap, m, e)
    decreases m - n
  {
    if n < m {
      TurnSpins(buf, filterMap, n, e);
      SpinsFrom(buf, filterMap, n + 1, e, m);
    }
  }

  /** The smallest stream that shows it: one header of version 3, length 0, type Route Monitoring. */
  const SPINNING_STREAM: seq<Byte> := [3, 0, 0, 0, 0, 0]

  /** Its header: version 3, declared length 0, type 0; the cursor at its start is stuck. */
  lemma SpinningStreamHeader()
    ensures HeaderAt(SPINNING_STREAM, 0) == Some(CommonHeader(3, 0, 0))
    ensures StuckAt(SPINNING_STREAM, 0)
  {
  }

  /** The walk over that stream stops at once on the declared length of zero. */
  lemma SpinningStreamWalk()
    ensures Walk(SPINNING_STREAM, 0) == WalkResult([], Failed(ZeroLength(0)))
  {
    SpinningStreamHeader();
  }

  /** A stream that starts with a stuck header keeps the as-written loop at cursor 0 forever. */
  lemma StuckFromStart(buf: seq<Byte>, filterMap: map<int, bool>, turns: nat)
    requires filterMap.Keys == KNOWN_TYPES
    requires 0 < |buf| && StuckAt(buf, 0)
    ensures CursorAfter(buf, filterMap, turns, 0)
  {
    assert CursorAfter(buf, filterMap, 0, 0);
    SpinsFrom(buf, filterMap, 0, 0, turns);
  }

  /**
   * Whatever the include flags, the as-written loop over that stream is
   * still at cursor 0 after any number of turns.
   */
  lemma ZeroLengthExample(flags: IncludeFlags, turns: nat)
    ensures AfterTurns(SPINNING_STREAM, ArgsToFilterMap(flags), turns).Some?
    ensures AfterTurns(SPINNING_STREAM, ArgsToFilterMap(flags), turns).value.head == 0
  {
    SpinningStreamHeader();
    StuckFromStart(SPINNING_STREAM, ArgsToFilterMap(flags), turns);
  }
}
