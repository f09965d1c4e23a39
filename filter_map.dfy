/**
 * The seven BMP message types of section 4.1 of RFC 7854 and the
 * allow-list the filter builds from its seven include flags.
 */
module FilterMap {

  /** Route Monitoring, Statistics Report, Peer Down, Peer Up, Initiation, Termination, Route Mirroring. */
  const KNOWN_TYPES: set<int> := set t | 0 <= t <= 6

  /** Whether `t` is the code of one of the known types. */
  predicate IsKnownType(t: int) {
    t in KNOWN_TYPES
  }

  /** The seven `store_true` options of the command line, one per known type. */
  datatype IncludeFlags = IncludeFlags(
    routeMonitoring: bool,
    statisticsReport: bool,
    peerDown: bool,
    peerUp: bool,
    initiation: bool,
    termination: bool,
    routeMirroring: bool)

  /** The command line with no include option given. */
  const NO_FLAGS := IncludeFlags(false, false, false, false, false, false, false)

  /** Whether the flag that belongs to type code `t` was given. */
  predicate Includes(flags: IncludeFlags, t: int) {
    match t
    case 0 => flags.routeMonitoring
    case 1 => flags.statisticsReport
    case 2 => flags.peerDown
    case 3 => flags.peerUp
    case 4 => flags.initiation
    case 5 => flags.termination
    case 6 => flags.routeMirroring
    case _ => false
  }

  /**
   * The filter map: one entry per known type, holding `not` the include
   * flag of that type (`true` means discard).
   */
  function ArgsToFilterMap(flags: IncludeFlags): (m: map<int, bool>)
    ensures m.Keys == KNOWN_TYPES
    ensures forall t :: t in m ==> (m[t] <==> !Includes(flags, t))
  {
    map t | t in KNOWN_TYPES :: !Includes(flags, t)
  }

  /** A message of type `t` is kept when the lookup succeeds and says "do not discard". */
  predicate Kept(filterMap: map<int, bool>, t: int) {
    t in filterMap && !filterMap[t]
  }

  /** Reads the include flags back out of a filter map. */
  function FlagsOf(filterMap: map<int, bool>): (flags: IncludeFlags)
    requires KNOWN_TYPES <= filterMap.Keys
    ensures forall t :: IsKnownType(t) ==> (Includes(flags, t) <==> Kept(filterMap, t))
  {
    IncludeFlags(!filterMap[0], !filterMap[1], !filterMap[2], !filterMap[3],
                 !filterMap[4], !filterMap[5], !filterMap[6])
  }

  /** The filter map loses no flag: the flags can be recovered from it. */
  lemma FilterMapRoundTrip(flags: IncludeFlags)
    ensures FlagsOf(ArgsToFilterMap(flags)) == flags
  {
  }

  /** Allow-list semantics: a type is kept exactly when it is known and its flag was given. */
  lemma KeptIffIncluded(flags: IncludeFlags, t: int)
    ensures Kept(ArgsToFilterMap(flags), t) <==> IsKnownType(t) && Includes(flags, t)
  {
  }

  /** Deny-all default: with no flag given, no type is kept. */
  lemma NoFlagsKeepsNothing(t: int)
    ensures !Kept(ArgsToFilterMap(NO_FLAGS), t)
  {
  }
}
