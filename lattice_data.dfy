/**
 * The lattice namespace: the map from upper-case element or beamline names to
 * their records, as a lattice file is turned into `{NAME: {type: {k: v}}}`.
 */
module LatticeData {
  import opened Wrappers
  import opened PyStr

  /** A parameter value: the text read from the file, or the number an RPN expression resolved to. */
  datatype Value = Str(s: string) | Num(r: real)

  /**
   * One namespace entry: `{type: {k: v}}`, a bare `type` string (an element
   * written without parameters), or the list of prefix lines kept under `_prefixstr`.
   * A beamline is an `Element` of type `beamline` whose `lattice` parameter holds `(a b ...)`.
   */
  datatype Entry =
    | Element(etype: string, params: map<string, Value>)
    | TypeOnly(etype: string)
    | PrefixLines(lines: seq<string>)

  type Namespace = map<string, Entry>

  const PrefixKey: string := "_prefixstr"
  const LatticeKey: string := "lattice"
  const BeamlineType: string := "beamline"

  /**
   * `getElementType`: the upper-cased type of the entry stored under the upper-cased keyword.
   * `None` stands for the exception raised for a missing keyword or for the prefix list.
   */
  function ElementType(ns: Namespace, kw: string): (r: Option<string>)
    ensures r.Some? <==> Upper(kw) in ns && !ns[Upper(kw)].PrefixLines?
    ensures r.Some? ==> r.value == Upper(ns[Upper(kw)].etype)
  {
    var key := Upper(kw);
    if key !in ns then None
    else match ns[key]
      case Element(t, _) => Some(Upper(t))
      case TypeOnly(t) => Some(Upper(t))
      case PrefixLines(_) => None
  }

  /**
   * `getBeamline`: the blank-separated references inside the parentheses of the
   * entry's `lattice` string. `None` stands for the exception raised when the
   * keyword is missing, has no parameter dict, or has no textual `lattice`.
   */
  function BeamlineRefs(ns: Namespace, kw: string): (r: Option<seq<string>>)
    ensures r.Some? <==> Upper(kw) in ns && ns[Upper(kw)].Element?
                         && LatticeKey in ns[Upper(kw)].params && ns[Upper(kw)].params[LatticeKey].Str?
    ensures r.Some? ==> Words(r.value)
  {
    var key := Upper(kw);
    if key in ns && ns[key].Element? && LatticeKey in ns[key].params && ns[key].params[LatticeKey].Str?
    then Some(SplitWs(SliceStr(ns[key].params[LatticeKey].s, 1, -1)))
    else None
  }

  /** The beamline record `generateLatticeLine` stores: `{'beamline': {'lattice': '(a b ...)'}}`. */
  function BeamlineEntry(names: seq<string>): Entry
  {
    Element(BeamlineType, map[LatticeKey := Str("(" + Join(" ", names) + ")")])
  }

  /** The references of a stored beamline record are the names it was built from. */
  lemma {:induction false} BeamlineEntryRefs(ns: Namespace, kw: string, names: seq<string>)
    requires Words(names)
    ensures BeamlineRefs(ns[Upper(kw) := BeamlineEntry(names)], kw) == Some(names)
  {
    var s := "(" + Join(" ", names) + ")";
    assert SliceStr(s, 1, -1) == Join(" ", names);
    SplitWsJoin(names);
  }
}
