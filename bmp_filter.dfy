/**
 * The filter loop of `bmp_filter.py`: walk the input by the embedded
 * lengths, copy the bytes of kept messages to the output, and count every
 * message once as kept or discarded.
 *
 * `FilterStream` is the loop with its defect corrected: a declared length
 * of zero halts with an error. The loop exactly as written is in the
 * module `LoopAsWritten`.
 */
module BmpFilter {
  import opened BmpHeader
  import opened FilterMap
  import opened Stats
  import opened Framing
  import opened LoopInvariant

  /**
   * How a run of `main` ends. `mmap.mmap(fileno, 0)` refuses an empty file
   * with `ValueError`, before the output file is opened and before the
   * loop starts; any other input reaches the loop, which stops as the
   * framing walk says.
   */
  datatype RunOutcome = EmptyInputFile | Ran(halt: Halt)

  /**
   * The body of `main`: build the filter map from the include flags, map
   * the input and run the filter loop with fresh counters. On an empty
   * input nothing is written and the counters stay zero.
   */
  method RunFilter(flags: IncludeFlags, input: seq<Byte>)
    returns (output: seq<Byte>, statistics: Statistics, outcome: RunOutcome)
    ensures fresh(statistics)
    ensures outcome == EmptyInputFile <==> input == []
    ensures input == [] ==> output == [] && statistics.kept == ZEROS && statistics.discarded == ZEROS
    ensures input != [] ==> var w := Walk(input, 0); var filterMap := ArgsToFilterMap(flags);
      && outcome == Ran(w.halt)
      && output == Output(input, filterMap, w.frames)
      && statistics.kept == Tally(filterMap, w.frames).kept
      && statistics.discarded == Tally(filterMap, w.frames).discarded
  {
    var filterMap := ArgsToFilterMap(flags);
    if input == [] {
      statistics := new Statistics();
      output, outcome := [], EmptyInputFile;
      return;
    }
    var halt;
    output, statistics, halt := FilterStream(filterMap, input);
    outcome := Ran(halt);
  }

  /** `decode_common_header(inp_map[head:head+6])`, seen as the header found at `head`. */
  method ReadHeader(input: seq<Byte>, head: nat) returns (header: Option<CommonHeader>)
    ensures header == HeaderAt(input, head)
  {
    header := DecodeCommonHeader(Slice(input, head, head + HEADER_SIZE));
    HeaderAtDecodes(input, head);
  }

  /**
   * The filter loop over `input` with a filter map defined on the seven
   * known types. The output, the counters and the halt reason are those
   * of the framing walk; on an error the output and counters are what was
   * produced before the failing message, as the output file and counters
   * are left when the source raises.
   */
  method FilterStream(filterMap: map<int, bool>, input: seq<Byte>)
    returns (output: seq<Byte>, statistics: Statistics, halt: Halt)
    requires filterMap.Keys == KNOWN_TYPES
    ensures fresh(statistics)
    ensures var w := Walk(input, 0);
      && halt == w.halt
      && output == Output(input, filterMap, w.frames)
      && statistics.kept == Tally(filterMap, w.frames).kept
      && statistics.discarded == Tally(filterMap, w.frames).discarded
  {
    statistics := new Statistics();
    output := [];
    halt := Finished;
    var head: nat := 0;
    ghost var k: nat := 0;
    while head < |input|
      invariant k <= |Walk(input, 0).frames|
      invariant LoopState(head, output, Counters(statistics.kept, statistics.discarded)) == Visited(input, filterMap, Walk(input, 0).frames, k)
      invariant halt == Finished
      modifies statistics
      decreases |input| - head
    {
      var header := ReadHeader(input, head);
      if header.None? {
        halt := Failed(TruncatedHeader(head));
        break;
      }
      var h := header.value;
      if h.msgType !in filterMap {
        halt := Failed(UnknownType(head, h.msgType));
        break;
      }
      if h.length == 0 {
        halt := Failed(ZeroLength(head));
        break;
      }
      if !filterMap[h.msgType] {
        StepKept(input, filterMap, k, LoopState(head, output, Counters(statistics.kept, statistics.discarded)), h);
        statistics.kept := Bump(statistics.kept, h.msgType);
        output := output + Slice(input, head, head + h.length);
      } else {
        StepDiscarded(input, filterMap, k, LoopState(head, output, Counters(statistics.kept, statistics.discarded)), h);
        statistics.discarded := Bump(statistics.discarded, h.msgType);
      }
      k := k + 1;
      head := head + h.length;
    }
    VisitEnd(input, filterMap, k);
  }
}
