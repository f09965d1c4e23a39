/**
 * Per-type counters of kept and discarded messages: the `Statistics`
 * object the filter mutates, and the value-level counterpart its
 * specification is written in. The source keeps each counter set in a
 * dictionary with the keys 0..6; here it is a sequence of seven counters
 * indexed by the type code.
 */
module Stats {
  import opened FilterMap

  /** Number of counters in each set: one per known type. */
  const TYPE_COUNT: nat := 7

  /** One counter per known type, all zero. */
  const ZEROS: seq<nat> := [0, 0, 0, 0, 0, 0, 0]

  /** A snapshot of both counter sets. */
  datatype Counters = Counters(kept: seq<nat>, discarded: seq<nat>)

  /**
   * `counter[t] += 1`: exactly the counter of type `t` goes up by one. A
   * type without a counter leaves the counters alone (the loop never gets
   * here with one: the filter-map lookup has already raised).
   */
  function Bump(m: seq<nat>, t: int): (r: seq<nat>)
    ensures |r| == |m|
    ensures forall u :: 0 <= u < |m| ==> r[u] == m[u] + (if u == t then 1 else 0)
  {
    if 0 <= t < |m| then m[t := m[t] + 1] else m
  }

  /**
   * The bookkeeping of one classified message: the kept or the discarded
   * counter of its type goes up by one, and no other counter changes.
   */
  function Record(c: Counters, t: int, keep: bool): (r: Counters)
    ensures |r.kept| == |c.kept| && |r.discarded| == |c.discarded|
    ensures forall u :: 0 <= u < |c.kept| ==> r.kept[u] == c.kept[u] + (if keep && u == t then 1 else 0)
    ensures forall u :: 0 <= u < |c.discarded| ==>
      r.discarded[u] == c.discarded[u] + (if !keep && u == t then 1 else 0)
  {
    if keep then c.(kept := Bump(c.kept, t)) else c.(discarded := Bump(c.discarded, t))
  }

  /** The sum of a set of seven counters. */
  function Total(m: seq<nat>): nat
    requires |m| == TYPE_COUNT
  {
    m[0] + m[1] + m[2] + m[3] + m[4] + m[5] + m[6]
  }

  /** Recording a message of a known type adds exactly one to the grand total. */
  lemma RecordTotal(c: Counters, t: int, keep: bool)
    requires |c.kept| == TYPE_COUNT && |c.discarded| == TYPE_COUNT
    requires IsKnownType(t)
    ensures var r := Record(c, t, keep);
      Total(r.kept) + Total(r.discarded) == Total(c.kept) + Total(c.discarded) + 1
  {
    var r := Record(c, t, keep);
    if keep {
      assert r.discarded == c.discarded;
    } else {
      assert r.kept == c.kept;
    }
  }

  class Statistics {
    var kept: seq<nat>
    var discarded: seq<nat>

    /** A fresh object counts zero for each of the seven types. */
    constructor ()
      ensures kept == ZEROS && discarded == ZEROS
    {
      kept := ZEROS;
      discarded := ZEROS;
    }
  }
}
