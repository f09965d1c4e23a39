/**
 * A two-message stream run through the framing walk with only the Peer
 * Down include flag given: a Route Monitoring message of 12 bytes, then a
 * Peer Down Notification of 8 bytes. The walk frames both and finishes;
 * only the second message is written; one message is counted per type.
 */
module WorkedExample {
  import opened BmpHeader
  import opened FilterMap
  import opened Stats
  import opened Framing

  /** Version 3, length 12, type 0, six payload bytes; then version 3, length 8, type 2, two payload bytes. */
  const EXAMPLE_STREAM: seq<Byte> := [3, 0, 0, 0, 12, 0, 9, 9, 9, 9, 9, 9, 3, 0, 0, 0, 8, 2, 7, 7]

  /** `--peer-down` and no other include option. */
  const PEER_DOWN_ONLY := IncludeFlags(false, false, true, false, false, false, false)

  /** The two messages at offsets 0 and 12 with their decoded headers. */
  const EXAMPLE_FRAMES := [Frame(0, CommonHeader(3, 12, 0)), Frame(12, CommonHeader(3, 8, 2))]

  /** The walk frames the two messages at offsets 0 and 12 and reaches the end of the stream. */
  lemma ExampleWalk()
    ensures Walk(EXAMPLE_STREAM, 0) == WalkResult(EXAMPLE_FRAMES, Finished)
  {
    var buf := EXAMPLE_STREAM;
    var h0, h1 := CommonHeader(3, 12, 0), CommonHeader(3, 8, 2);
    assert HeaderAt(buf, 0) == Some(h0);
    assert HeaderAt(buf, 12) == Some(h1);
    WalkAdvance(buf, 12, h1, WalkResult([], Finished));
    WalkAdvance(buf, 0, h0, WalkResult([Frame(12, h1)], Finished));
  }

  /** The output is exactly the bytes of the second message. */
  lemma ExampleOutput()
    ensures Output(EXAMPLE_STREAM, ArgsToFilterMap(PEER_DOWN_ONLY), EXAMPLE_FRAMES) == EXAMPLE_STREAM[12..]
  {
    var filterMap := ArgsToFilterMap(PEER_DOWN_ONLY);
    assert EXAMPLE_FRAMES[..1] == [EXAMPLE_FRAMES[0]];
    OutputSingle(EXAMPLE_STREAM, filterMap, EXAMPLE_FRAMES[0]);
    assert !Kept(filterMap, 0) && Kept(filterMap, 2);
  }

  /** Kept counts one Peer Down Notification, discarded counts one Route Monitoring message, all else zero. */
  lemma ExampleTally()
    ensures Tally(ArgsToFilterMap(PEER_DOWN_ONLY), EXAMPLE_FRAMES) == Counters([0, 0, 1, 0, 0, 0, 0], [1, 0, 0, 0, 0, 0, 0])
  {
    var filterMap := ArgsToFilterMap(PEER_DOWN_ONLY);
    assert EXAMPLE_FRAMES[..1] == [EXAMPLE_FRAMES[0]];
    assert [EXAMPLE_FRAMES[0]][..0] == [];
    assert !Kept(filterMap, 0) && Kept(filterMap, 2);
    assert Tally(filterMap, EXAMPLE_FRAMES[..1]) == Counters(ZEROS, [1, 0, 0, 0, 0, 0, 0]);
  }

  /** The whole run on the example stream: it finishes, writes the second message and counts each message once. */
  lemma TwoMessageRun()
    ensures var w := Walk(EXAMPLE_STREAM, 0); var filterMap := ArgsToFilterMap(PEER_DOWN_ONLY);
      && w.halt == Finished
      && Output(EXAMPLE_STREAM, filterMap, w.frames) == EXAMPLE_STREAM[12..]
      && Tally(filterMap, w.frames) == Counters([0, 0, 1, 0, 0, 0, 0], [1, 0, 0, 0, 0, 0, 0])
  {
    ExampleWalk();
    ExampleOutput();
    ExampleTally();
  }
}
