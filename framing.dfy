/**
 * The framing walk over a delimiter-free buffer of BMP messages, and the
 * output and counters the filter loop derives from the walk. These are
 * the specification functions the imperative loop is proved against.
 */
module Framing {
  import opened BmpHeader
  import opened FilterMap
  import opened Stats

  /** A message the loop visited: its offset in the buffer and its decoded header. */
  datatype Frame = Frame(offset: nat, header: CommonHeader)

  /** Why a walk stopped before the cursor reached the end of the buffer. */
  datatype WalkError =
    | TruncatedHeader(offset: nat)                // fewer than six bytes remain: IndexError in the decoder
    | UnknownType(offset: nat, msgType: Byte)     // type code outside 0..6: KeyError in the filter map
    | ZeroLength(offset: nat)                     // declared length 0: the cursor would never move again

  datatype Halt = Finished | Failed(error: WalkError)

  datatype WalkResult = WalkResult(frames: seq<Frame>, halt: Halt)

  function Min(a: int, b: int): int {
    if a <= b then a else b
  }

  /** Python's `buf[lo:hi]` for `0 <= lo <= hi`: both ends are clamped to the buffer. */
  function Slice(buf: seq<Byte>, lo: nat, hi: nat): (r: seq<Byte>)
    requires lo <= hi
    ensures hi <= |buf| ==> r == buf[lo..hi]
    ensures lo <= |buf| <= hi ==> r == buf[lo..]
    ensures |buf| <= lo ==> r == []
  {
    buf[Min(lo, |buf|)..Min(hi, |buf|)]
  }

  /**
   * The header found at cursor `head`, read straight off the buffer: None
   * when fewer than six bytes remain. `HeaderAtDecodes` shows this is what
   * the decoder makes of the six-byte slice at `head`.
   */
  function HeaderAt(buf: seq<Byte>, head: nat): Option<CommonHeader> {
    if |buf| < head + HEADER_SIZE then None
    else Some(CommonHeader(buf[head], Uint32(buf, head + 1), buf[head + 5]))
  }

  lemma HeaderAtDecodes(buf: seq<Byte>, head: nat)
    ensures DecodeCommonHeader(Slice(buf, head, head + HEADER_SIZE)) == HeaderAt(buf, head)
  {
    var window := Slice(buf, head, head + HEADER_SIZE);
    if head + HEADER_SIZE <= |buf| {
      assert window == buf[head..head + HEADER_SIZE];
      assert window[1..5] == buf[head + 1..head + 5];
      FromBigEndianFour(window[1..5]);
    } else {
      assert |window| < HEADER_SIZE;
    }
  }

  /** Where the cursor stands after visiting `frames` from `head`. */
  function End(head: nat, frames: seq<Frame>): nat {
    if frames == [] then head
    else frames[|frames| - 1].offset + frames[|frames| - 1].header.length
  }

  /**
   * The frames form a chain from `head`: each one sits on a complete header
   * inside the buffer whose decoding it carries, its type is known, its
   * length is positive, and the next frame starts exactly `length` bytes on.
   */
  ghost predicate Chained(buf: seq<Byte>, head: nat, frames: seq<Frame>) {
    && (|frames| > 0 ==> frames[0].offset == head)
    && (forall i :: 0 <= i < |frames| ==> OnHeader(buf, frames[i]))
    && (forall i :: 0 <= i < |frames| - 1 ==>
          frames[i + 1].offset == frames[i].offset + frames[i].header.length)
  }

  /** A frame sits on a complete header whose decoding it carries, of known type and positive length. */
  ghost predicate OnHeader(buf: seq<Byte>, f: Frame) {
    && HeaderAt(buf, f.offset) == Some(f.header)
    && IsKnownType(f.header.msgType)
    && f.header.length > 0
  }

  /** The bytes at cursor `e` make the walk take a step: a complete header, a known type, a positive length. */
  predicate Advances(buf: seq<Byte>, e: nat) {
    && HeaderAt(buf, e).Some?
    && IsKnownType(HeaderAt(buf, e).value.msgType)
    && HeaderAt(buf, e).value.length > 0
  }

  /** The error the walk reports at cursor `e` inside the buffer when it cannot step. */
  function ErrorAt(buf: seq<Byte>, e: nat): WalkError {
    match HeaderAt(buf, e)
    case None => TruncatedHeader(e)
    case Some(h) => if !IsKnownType(h.msgType) then UnknownType(e, h.msgType) else ZeroLength(e)
  }

  /**
   * What the error at a cursor says about the bytes there: too few bytes
   * for a header; a complete header whose type byte is not a known type; or
   * a complete header of known type whose four length bytes are all zero.
   */
  lemma ErrorAtBytes(buf: seq<Byte>, e: nat)
    requires !Advances(buf, e)
    ensures ErrorAt(buf, e).offset == e
    ensures ErrorAt(buf, e).TruncatedHeader? <==> |buf| < e + HEADER_SIZE
    ensures ErrorAt(buf, e).UnknownType? <==> e + HEADER_SIZE <= |buf| && !IsKnownType(buf[e + 5])
    ensures ErrorAt(buf, e).UnknownType? ==> ErrorAt(buf, e).msgType == buf[e + 5]
    ensures ErrorAt(buf, e).ZeroLength? <==>
      && e + HEADER_SIZE <= |buf| && IsKnownType(buf[e + 5])
      && buf[e + 1] == 0 && buf[e + 2] == 0 && buf[e + 3] == 0 && buf[e + 4] == 0
  {
  }

  /**
   * The walk stopped for the right reason at cursor `e`: it finished when
   * the cursor reached or passed the end, and otherwise the bytes there do
   * not let it step and the error is the one those bytes give.
   */
  ghost predicate HaltsAt(buf: seq<Byte>, e: nat, halt: Halt) {
    if e >= |buf| then halt == Finished
    else !Advances(buf, e) && halt == Failed(ErrorAt(buf, e))
  }

  /**
   * The framing walk from cursor `head`: while the cursor is inside the
   * buffer, decode the (possibly short) six-byte slice there, look its type
   * up, and advance by the declared length. A declared length that takes
   * the cursor past the end simply ends the walk, as in the source.
   */
  function Walk(buf: seq<Byte>, head: nat): (r: WalkResult)
    ensures head <= |buf| ==> |r.frames| <= |buf| - head
    decreases |buf| - head
  {
    if head >= |buf| then WalkResult([], Finished)
    else
      match HeaderAt(buf, head)
      case None => WalkResult([], Failed(TruncatedHeader(head)))
      case Some(h) =>
        if !IsKnownType(h.msgType) then WalkResult([], Failed(UnknownType(head, h.msgType)))
        else if h.length == 0 then WalkResult([], Failed(ZeroLength(head)))
        else
          var rest := Walk(buf, head + h.length);
          WalkResult([Frame(head, h)] + rest.frames, rest.halt)
  }

  /** At a cursor inside the buffer whose bytes advance, the walk takes that frame and goes on after it. */
  lemma WalkAdvance(buf: seq<Byte>, head: nat, h: CommonHeader, rest: WalkResult)
    requires head < |buf| && HeaderAt(buf, head) == Some(h) && IsKnownType(h.msgType) && h.length > 0
    requires Walk(buf, head + h.length) == rest
    ensures Walk(buf, head) == WalkResult([Frame(head, h)] + rest.frames, rest.halt)
  {
  }

  /** Every visited frame sits on a well-formed header and the frames form a chain from `head`. */
  lemma {:induction false} WalkChained(buf: seq<Byte>, head: nat)
    ensures Chained(buf, head, Walk(buf, head).frames)
    decreases |buf| - head
  {
    if head < |buf| && HeaderAt(buf, head).Some? {
      var h := HeaderAt(buf, head).value;
      if IsKnownType(h.msgType) && h.length > 0 {
        WalkChained(buf, head + h.length);
        var f, rest := Frame(head, h), Walk(buf, head + h.length).frames;
        var frames := [f] + rest;
        assert Walk(buf, head).frames == frames;
        forall i | 0 <= i < |frames| ensures OnHeader(buf, frames[i]) {
          if i > 0 { assert frames[i] == rest[i - 1]; }
        }
        forall i | 0 <= i < |frames| - 1
          ensures frames[i + 1].offset == frames[i].offset + frames[i].header.length
        {
          if i > 0 { assert frames[i] == rest[i - 1] && frames[i + 1] == rest[i]; }
        }
      }
    }
  }

  /** The walk stops at its final cursor, and for exactly the reason the bytes there give. */
  lemma {:induction false} WalkHalts(buf: seq<Byte>, head: nat)
    ensures HaltsAt(buf, End(head, Walk(buf, head).frames), Walk(buf, head).halt)
    decreases |buf| - head
  {
    var r := Walk(buf, head);
    if head < |buf| && HeaderAt(buf, head).Some? {
      var h := HeaderAt(buf, head).value;
      if IsKnownType(h.msgType) && h.length > 0 {
        WalkHalts(buf, head + h.length);
        var rest := Walk(buf, head + h.length);
        assert r.frames == [Frame(head, h)] + rest.frames;
        assert End(head, r.frames) == End(head + h.length, rest.frames);
      } else {
        assert r.frames == [];
      }
    }
  }

  /**
   * The walk seen from its `k`-th cursor: past the end it has finished;
   * inside the buffer it has a `k`-th frame exactly when the bytes there
   * advance, that frame is the header found there, and otherwise the walk
   * stops with the error those bytes give.
   */
  lemma WalkAt(buf: seq<Byte>, k: nat)
    requires k <= |Walk(buf, 0).frames|
    ensures var w := Walk(buf, 0); var e := End(0, w.frames[..k]);
      && (e >= |buf| ==> k == |w.frames| && w.halt == Finished)
      && (e < |buf| ==> (k < |w.frames| <==> Advances(buf, e)))
      && (e < |buf| && k < |w.frames| ==> w.frames[k] == Frame(e, HeaderAt(buf, e).value))
      && (e < |buf| && k == |w.frames| ==> w.halt == Failed(ErrorAt(buf, e)))
  {
    var w := Walk(buf, 0);
    if k < |w.frames| {
      WalkFrameAt(buf, k);
    } else {
      assert w.frames[..k] == w.frames;
      WalkHalts(buf, 0);
    }
  }

  /** Where the bytes at the `k`-th cursor advance, the walk's `k`-th frame is that header, and the cursor moves by its length. */
  lemma WalkStep(buf: seq<Byte>, k: nat)
    requires k <= |Walk(buf, 0).frames|
    requires End(0, Walk(buf, 0).frames[..k]) < |buf| && Advances(buf, End(0, Walk(buf, 0).frames[..k]))
    ensures var frames := Walk(buf, 0).frames; var e := End(0, frames[..k]);
      && k < |frames|
      && frames[k] == Frame(e, HeaderAt(buf, e).value)
      && End(0, frames[..k + 1]) == e + frames[k].header.length
  {
    WalkAt(buf, k);
    var frames := Walk(buf, 0).frames;
    assert frames[..k + 1][k] == frames[k];
  }

  /** The `k`-th frame of the walk starts where the first `k` end, on a header that advances. */
  lemma WalkFrameAt(buf: seq<Byte>, k: nat)
    requires k < |Walk(buf, 0).frames|
    ensures var w := Walk(buf, 0);
      w.frames[k].offset == End(0, w.frames[..k]) && OnHeader(buf, w.frames[k])
  {
    var w := Walk(buf, 0);
    WalkChained(buf, 0);
    if k > 0 {
      assert w.frames[..k][k - 1] == w.frames[k - 1];
    }
  }

  /** The bytes the loop writes for a message: `inp_map[head:head+msg_length]`. */
  function Span(buf: seq<Byte>, f: Frame): seq<Byte> {
    Slice(buf, f.offset, f.offset + f.header.length)
  }

  function Piece(buf: seq<Byte>, filterMap: map<int, bool>, f: Frame): seq<Byte> {
    if Kept(filterMap, f.header.msgType) then Span(buf, f) else []
  }

  /** What the output file holds after the loop visited `frames`, in visiting order. */
  function Output(buf: seq<Byte>, filterMap: map<int, bool>, frames: seq<Frame>): seq<Byte> {
    if frames == [] then []
    else Output(buf, filterMap, frames[..|frames| - 1]) + Piece(buf, filterMap, frames[|frames| - 1])
  }

  /** The output of a single frame is its piece. */
  lemma OutputSingle(buf: seq<Byte>, filterMap: map<int, bool>, f: Frame)
    ensures Output(buf, filterMap, [f]) == Piece(buf, filterMap, f)
  {
    assert [f][..0] == [];
  }

  /** The counters after the loop visited `frames`. */
  function Tally(filterMap: map<int, bool>, frames: seq<Frame>): (c: Counters)
    ensures |c.kept| == TYPE_COUNT && |c.discarded| == TYPE_COUNT
  {
    if frames == [] then Counters(ZEROS, ZEROS)
    else
      var t := frames[|frames| - 1].header.msgType;
      Record(Tally(filterMap, frames[..|frames| - 1]), t, Kept(filterMap, t))
  }

  /** Visiting one more frame appends its piece to the output. */
  lemma OutputNext(buf: seq<Byte>, filterMap: map<int, bool>, frames: seq<Frame>, k: nat)
    requires k < |frames|
    ensures Output(buf, filterMap, frames[..k + 1]) == Output(buf, filterMap, frames[..k]) + Piece(buf, filterMap, frames[k])
  {
    assert frames[..k + 1][..k] == frames[..k];
  }

  /** Visiting one more frame whose type is kept appends its bytes to the output. */
  lemma OutputKeptNext(buf: seq<Byte>, filterMap: map<int, bool>, frames: seq<Frame>, k: nat)
    requires k < |frames| && Kept(filterMap, frames[k].header.msgType)
    ensures Output(buf, filterMap, frames[..k + 1]) == Output(buf, filterMap, frames[..k]) + Span(buf, frames[k])
  {
    OutputNext(buf, filterMap, frames, k);
  }

  /** Visiting one more frame whose type is discarded leaves the output as it is. */
  lemma OutputDiscardedNext(buf: seq<Byte>, filterMap: map<int, bool>, frames: seq<Frame>, k: nat)
    requires k < |frames| && !Kept(filterMap, frames[k].header.msgType)
    ensures Output(buf, filterMap, frames[..k + 1]) == Output(buf, filterMap, frames[..k])
  {
    OutputNext(buf, filterMap, frames, k);
  }

  /** Visiting one more frame whose type is kept adds one to its kept counter. */
  lemma TallyKeptNext(filterMap: map<int, bool>, frames: seq<Frame>, k: nat)
    requires k < |frames| && Kept(filterMap, frames[k].header.msgType)
    ensures var t := frames[k].header.msgType; var c := Tally(filterMap, frames[..k]);
      Tally(filterMap, frames[..k + 1]) == Counters(Bump(c.kept, t), c.discarded)
  {
    assert frames[..k + 1][..k] == frames[..k];
  }

  /** Visiting one more frame whose type is discarded adds one to its discarded counter. */
  lemma TallyDiscardedNext(filterMap: map<int, bool>, frames: seq<Frame>, k: nat)
    requires k < |frames| && !Kept(filterMap, frames[k].header.msgType)
    ensures var t := frames[k].header.msgType; var c := Tally(filterMap, frames[..k]);
      Tally(filterMap, frames[..k + 1]) == Counters(c.kept, Bump(c.discarded, t))
  {
    assert frames[..k + 1][..k] == frames[..k];
  }

  /** Reference count: how many of `frames` have type `t` and the keep decision `keep`. */
  function Occurrences(filterMap: map<int, bool>, frames: seq<Frame>, t: int, keep: bool): nat {
    if frames == [] then 0
    else
      (if frames[0].header.msgType == t && Kept(filterMap, t) == keep then 1 else 0)
      + Occurrences(filterMap, frames[1..], t, keep)
  }

  /** Counting the frames up to the last one and then the last one gives the same count. */
  lemma {:induction false} OccurrencesLast(filterMap: map<int, bool>, frames: seq<Frame>, t: int, keep: bool)
    requires frames != []
    ensures Occurrences(filterMap, frames, t, keep)
         == Occurrences(filterMap, frames[..|frames| - 1], t, keep)
            + (if frames[|frames| - 1].header.msgType == t && Kept(filterMap, t) == keep then 1 else 0)
  {
    if |frames| > 1 {
      assert frames[1..][..|frames| - 2] == frames[..|frames| - 1][1..];
      OccurrencesLast(filterMap, frames[1..], t, keep);
    }
  }

  /** Each counter holds the number of visited messages of its type with its keep decision. */
  lemma {:induction false} TallyCounts(filterMap: map<int, bool>, frames: seq<Frame>, t: int)
    requires IsKnownType(t)
    ensures Tally(filterMap, frames).kept[t] == Occurrences(filterMap, frames, t, true)
    ensures Tally(filterMap, frames).discarded[t] == Occurrences(filterMap, frames, t, false)
  {
    if frames != [] {
      var init, last := frames[..|frames| - 1], frames[|frames| - 1];
      var u := last.header.msgType;
      var c := Tally(filterMap, init);
      var r := Record(c, u, Kept(filterMap, u));
      assert Tally(filterMap, frames) == r;
      assert c.kept[t] == Occurrences(filterMap, init, t, true)
          && c.discarded[t] == Occurrences(filterMap, init, t, false) by {
        TallyCounts(filterMap, init, t);
      }
      assert r.kept[t] == Occurrences(filterMap, frames, t, true) by {
        OccurrencesLast(filterMap, frames, t, true);
      }
      assert r.discarded[t] == Occurrences(filterMap, frames, t, false) by {
        OccurrencesLast(filterMap, frames, t, false);
      }
    }
  }

  /** Every visited message of a known type lands in exactly one counter. */
  lemma {:induction false} TallyTotal(filterMap: map<int, bool>, frames: seq<Frame>)
    requires forall i :: 0 <= i < |frames| ==> IsKnownType(frames[i].header.msgType)
    ensures var c := Tally(filterMap, frames); Total(c.kept) + Total(c.discarded) == |frames|
  {
    if frames != [] {
      var init, last := frames[..|frames| - 1], frames[|frames| - 1];
      TallyTotal(filterMap, init);
      RecordTotal(Tally(filterMap, init), last.header.msgType, Kept(filterMap, last.header.msgType));
    }
  }

  /** The output of a run is the output of its first part followed by that of its second. */
  lemma {:induction false} OutputConcat(buf: seq<Byte>, filterMap: map<int, bool>, a: seq<Frame>, b: seq<Frame>)
    ensures Output(buf, filterMap, a + b) == Output(buf, filterMap, a) + Output(buf, filterMap, b)
  {
    if b != [] {
      var init := b[..|b| - 1];
      assert (a + b)[..|a + b| - 1] == a + init;
      assert (a + b)[|a + b| - 1] == b[|b| - 1];
      OutputConcat(buf, filterMap, a, init);
    } else {
      assert a + b == a;
    }
  }

  /** With no include flag, nothing is written and nothing is counted as kept. */
  lemma {:induction false} NoFlagsDiscardsAll(buf: seq<Byte>, frames: seq<Frame>)
    ensures Output(buf, ArgsToFilterMap(NO_FLAGS), frames) == []
    ensures Tally(ArgsToFilterMap(NO_FLAGS), frames).kept == ZEROS
  {
    if frames != [] {
      NoFlagsDiscardsAll(buf, frames[..|frames| - 1]);
      NoFlagsKeepsNothing(frames[|frames| - 1].header.msgType);
    }
  }

  // ----- Well-formed streams -----

  /** A whole message: a header whose length field is the message's own size, and a known type. */
  ghost predicate IsMessage(m: seq<Byte>) {
    |m| >= HEADER_SIZE && Uint32(m, 1) == |m| && IsKnownType(m[5])
  }

  /** The header at the start of a whole message declares the message's own size. */
  lemma MessageHeader(m: seq<Byte>)
    requires IsMessage(m)
    ensures HeaderAt(m, 0) == Some(CommonHeader(m[0], |m|, m[5]))
  {
  }

  ghost predicate AllMessages(msgs: seq<seq<Byte>>) {
    forall i :: 0 <= i < |msgs| ==> IsMessage(msgs[i])
  }

  function Flatten(msgs: seq<seq<Byte>>): seq<Byte> {
    if msgs == [] then [] else msgs[0] + Flatten(msgs[1..])
  }

  lemma {:induction false} FlattenAppend(msgs: seq<seq<Byte>>, i: nat)
    requires i < |msgs|
    ensures Flatten(msgs[..i + 1]) == Flatten(msgs[..i]) + msgs[i]
  {
    if i == 0 {
      assert msgs[..1][1..] == [];
    } else {
      assert msgs[..i + 1][1..] == msgs[1..][..i];
      assert msgs[..i][1..] == msgs[1..][..i - 1];
      FlattenAppend(msgs[1..], i - 1);
    }
  }

  /** The messages of `msgs` whose type the filter keeps, in order. */
  function KeptMessages(filterMap: map<int, bool>, msgs: seq<seq<Byte>>): seq<seq<Byte>>
    requires AllMessages(msgs)
  {
    if msgs == [] then []
    else (if Kept(filterMap, msgs[0][5]) then [msgs[0]] else []) + KeptMessages(filterMap, msgs[1..])
  }

  /** The frames of `msgs` laid end to end from `offset`, each with its message's own header (`MessageHeader`). */
  function FramesOf(offset: nat, msgs: seq<seq<Byte>>): (r: seq<Frame>)
    requires AllMessages(msgs)
    ensures |r| == |msgs|
    decreases |msgs|
  {
    if msgs == [] then []
    else
      [Frame(offset, CommonHeader(msgs[0][0], |msgs[0]|, msgs[0][5]))] + FramesOf(offset + |msgs[0]|, msgs[1..])
  }

  /** The frames of a non-empty sequence of messages: the first message's frame, then the others'. */
  lemma FramesOfCons(offset: nat, msgs: seq<seq<Byte>>)
    requires AllMessages(msgs) && msgs != []
    ensures FramesOf(offset, msgs)
      == [Frame(offset, CommonHeader(msgs[0][0], |msgs[0]|, msgs[0][5]))] + FramesOf(offset + |msgs[0]|, msgs[1..])
  {
  }

  /** The frame of message `i` starts at the prefix sum of the lengths before it and declares its size. */
  lemma {:induction false} FramesOfAt(offset: nat, msgs: seq<seq<Byte>>, i: nat)
    requires AllMessages(msgs) && i < |msgs|
    decreases |msgs|
    ensures FramesOf(offset, msgs)[i].offset == offset + |Flatten(msgs[..i])|
    ensures FramesOf(offset, msgs)[i].header == CommonHeader(msgs[i][0], |msgs[i]|, msgs[i][5])
  {
    if i > 0 {
      FramesOfAt(offset + |msgs[0]|, msgs[1..], i - 1);
      assert msgs[..i][1..] == msgs[1..][..i - 1];
    }
  }

  /**
   * A buffer whose bytes from `head` on are the messages `msgs`: the first
   * message's header sits at `head`, its bytes follow, and the rest of the
   * messages follow them.
   */
  lemma SuffixStep(buf: seq<Byte>, head: nat, msgs: seq<seq<Byte>>)
    requires AllMessages(msgs) && msgs != []
    requires head <= |buf| && buf[head..] == Flatten(msgs)
    ensures var m := msgs[0];
      && head < |buf| && head + |m| <= |buf|
      && HeaderAt(buf, head) == Some(CommonHeader(m[0], |m|, m[5]))
      && buf[head..head + |m|] == m
      && buf[head + |m|..] == Flatten(msgs[1..])
  {
    var m, rest := msgs[0], buf[head..];
    assert rest == m + Flatten(msgs[1..]);
    assert forall k :: 0 <= k < |m| ==> buf[head + k] == rest[k] == m[k];
    assert buf[head..head + |m|] == rest[..|m|];
    assert buf[head + |m|..] == rest[|m|..];
    MessageHeader(m);
  }

  /** Walking a buffer whose bytes from `head` on are whole messages visits exactly their frames and finishes. */
  lemma {:induction false} WalkMessages(buf: seq<Byte>, head: nat, msgs: seq<seq<Byte>>)
    requires AllMessages(msgs) && head <= |buf| && buf[head..] == Flatten(msgs)
    ensures Walk(buf, head) == WalkResult(FramesOf(head, msgs), Finished)
    decreases |msgs|
  {
    if msgs == [] {
      assert |buf[head..]| == 0;
    } else {
      SuffixStep(buf, head, msgs);
      WalkMessages(buf, head + |msgs[0]|, msgs[1..]);
      WalkFirstMessage(buf, head, msgs);
    }
  }

  /** The walk at the first of the messages from `head`, given the walk from the second on. */
  lemma WalkFirstMessage(buf: seq<Byte>, head: nat, msgs: seq<seq<Byte>>)
    requires AllMessages(msgs) && msgs != [] && head <= |buf| && buf[head..] == Flatten(msgs)
    requires Walk(buf, head + |msgs[0]|) == WalkResult(FramesOf(head + |msgs[0]|, msgs[1..]), Finished)
    ensures Walk(buf, head) == WalkResult(FramesOf(head, msgs), Finished)
  {
    var m := msgs[0];
    SuffixStep(buf, head, msgs);
    WalkAdvance(buf, head, CommonHeader(m[0], |m|, m[5]), WalkResult(FramesOf(head + |m|, msgs[1..]), Finished));
    FramesOfCons(head, msgs);
  }

  /** The output of those frames is the concatenation of the kept messages, byte for byte. */
  lemma {:induction false} OutputMessages(buf: seq<Byte>, head: nat, msgs: seq<seq<Byte>>, filterMap: map<int, bool>)
    requires AllMessages(msgs) && head <= |buf| && buf[head..] == Flatten(msgs)
    ensures Output(buf, filterMap, FramesOf(head, msgs)) == Flatten(KeptMessages(filterMap, msgs))
    decreases |msgs|
  {
    if msgs != [] {
      SuffixStep(buf, head, msgs);
      OutputMessages(buf, head + |msgs[0]|, msgs[1..], filterMap);
      OutputFirstMessage(buf, head, msgs, filterMap);
    }
  }

  /** The output at the first of the messages from `head`, given the output from the second on. */
  lemma OutputFirstMessage(buf: seq<Byte>, head: nat, msgs: seq<seq<Byte>>, filterMap: map<int, bool>)
    requires AllMessages(msgs) && msgs != [] && head <= |buf| && buf[head..] == Flatten(msgs)
    requires Output(buf, filterMap, FramesOf(head + |msgs[0]|, msgs[1..])) == Flatten(KeptMessages(filterMap, msgs[1..]))
    ensures Output(buf, filterMap, FramesOf(head, msgs)) == Flatten(KeptMessages(filterMap, msgs))
  {
    var m := msgs[0];
    var f, rest := Frame(head, CommonHeader(m[0], |m|, m[5])), FramesOf(head + |m|, msgs[1..]);
    calc {
      Output(buf, filterMap, FramesOf(head, msgs));
      { FramesOfCons(head, msgs); }
      Output(buf, filterMap, [f] + rest);
      { OutputConcat(buf, filterMap, [f], rest); OutputSingle(buf, filterMap, f); }
      Piece(buf, filterMap, f) + Output(buf, filterMap, rest);
      { SuffixStep(buf, head, msgs); PieceOfMessage(buf, filterMap, head, m); }
      (if Kept(filterMap, m[5]) then m else []) + Flatten(KeptMessages(filterMap, msgs[1..]));
      { FlattenKeptMessages(filterMap, msgs); }
      Flatten(KeptMessages(filterMap, msgs));
    }
  }

  /** The piece written for a message lying in the buffer at `head` is that message when its type is kept. */
  lemma PieceOfMessage(buf: seq<Byte>, filterMap: map<int, bool>, head: nat, m: seq<Byte>)
    requires |m| >= HEADER_SIZE && head + |m| <= |buf| && buf[head..head + |m|] == m
    ensures Piece(buf, filterMap, Frame(head, CommonHeader(m[0], |m|, m[5]))) == if Kept(filterMap, m[5]) then m else []
  {
  }

  /** The kept messages of a non-empty sequence, flattened: the first one if kept, then the rest. */
  lemma FlattenKeptMessages(filterMap: map<int, bool>, msgs: seq<seq<Byte>>)
    requires AllMessages(msgs) && msgs != []
    ensures Flatten(KeptMessages(filterMap, msgs))
      == (if Kept(filterMap, msgs[0][5]) then msgs[0] else []) + Flatten(KeptMessages(filterMap, msgs[1..]))
  {
    var later := KeptMessages(filterMap, msgs[1..]);
    if Kept(filterMap, msgs[0][5]) {
      assert ([msgs[0]] + later)[0] == msgs[0] && ([msgs[0]] + later)[1..] == later;
    } else {
      assert [] + later == later;
    }
  }

  /**
   * A buffer that is a concatenation of N whole messages: the walk visits the
   * N prefix-sum offsets, each with the message's own length, and finishes at
   * the end of the buffer; the output is exactly the kept messages in order,
   * and the counters add up to N.
   */
  lemma WellFormedStream(msgs: seq<seq<Byte>>, filterMap: map<int, bool>)
    requires AllMessages(msgs)
    ensures var w := Walk(Flatten(msgs), 0);
      && w.halt == Finished
      && |w.frames| == |msgs|
      && (forall i :: 0 <= i < |msgs| ==>
            w.frames[i].offset == |Flatten(msgs[..i])| && w.frames[i].header.length == |msgs[i]|)
      && End(0, w.frames) == |Flatten(msgs)|
      && Output(Flatten(msgs), filterMap, w.frames) == Flatten(KeptMessages(filterMap, msgs))
      && Total(Tally(filterMap, w.frames).kept) + Total(Tally(filterMap, w.frames).discarded) == |msgs|
  {
    var buf := Flatten(msgs);
    assert buf[0..] == buf;
    WalkMessages(buf, 0, msgs);
    var frames := FramesOf(0, msgs);
    forall i | 0 <= i < |msgs|
      ensures frames[i].offset == |Flatten(msgs[..i])| && frames[i].header.length == |msgs[i]|
    {
      FramesOfAt(0, msgs, i);
    }
    if msgs != [] {
      var last := |msgs| - 1;
      FlattenAppend(msgs, last);
      assert msgs[..last + 1] == msgs;
    }
    OutputMessages(buf, 0, msgs, filterMap);
    forall i | 0 <= i < |frames|
      ensures IsKnownType(frames[i].header.msgType)
    {
      FramesOfAt(0, msgs, i);
    }
    TallyTotal(filterMap, frames);
  }

  lemma {:induction false} KeptMessagesAreMessages(filterMap: map<int, bool>, msgs: seq<seq<Byte>>)
    requires AllMessages(msgs)
    ensures AllMessages(KeptMessages(filterMap, msgs))
    ensures KeptMessages(filterMap, KeptMessages(filterMap, msgs)) == KeptMessages(filterMap, msgs)
  {
    if msgs != [] {
      KeptMessagesAreMessages(filterMap, msgs[1..]);
      var kept := if Kept(filterMap, msgs[0][5]) then [msgs[0]] else [];
      var k := kept + KeptMessages(filterMap, msgs[1..]);
      assert KeptMessages(filterMap, msgs) == k;
      if kept != [] {
        assert k[0] == msgs[0];
        assert k[1..] == KeptMessages(filterMap, msgs[1..]);
      } else {
        assert k == KeptMessages(filterMap, msgs[1..]);
      }
    }
  }

  /** Filtering the output of a well-formed stream again with the same map changes nothing. */
  lemma FilterIdempotent(msgs: seq<seq<Byte>>, filterMap: map<int, bool>)
    requires AllMessages(msgs)
    ensures var out := Output(Flatten(msgs), filterMap, Walk(Flatten(msgs), 0).frames);
      Output(out, filterMap, Walk(out, 0).frames) == out
  {
    WellFormedStream(msgs, filterMap);
    KeptMessagesAreMessages(filterMap, msgs);
    WellFormedStream(KeptMessages(filterMap, msgs), filterMap);
  }
}
