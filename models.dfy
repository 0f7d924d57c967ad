/**
 * `Models`: a lattice assembled element by element.  It keeps a counter, a
 * name list and a list of private element copies in step, keeps the beamline
 * element's `lattice` entry listing those names, and places every element at
 * the sum of the lengths before it.
 */
module LatticeModels {
  import opened Wrappers
  import opened PyStr
  import opened PySeq
  import opened LatticeData
  import opened MagBlocks

  /** An argument of `addElement`: an element, or a list or tuple of such arguments. */
  datatype Nested<T> = Leaf(x: T) | Group(items: seq<Nested<T>>)

  // ------------------------------------------------------------------ flatten

  /** `flatten`: the leaves of the nested lists, left to right. */
  function Flatten<T>(xs: seq<Nested<T>>): seq<T>
  {
    if |xs| == 0 then []
    else (match xs[0] case Leaf(x) => [x] case Group(ys) => Flatten(ys)) + Flatten(xs[1..])
  }

  /** `x` is a leaf somewhere inside `n`. */
  predicate Occurs<T(==)>(x: T, n: Nested<T>)
  {
    match n
    case Leaf(y) => x == y
    case Group(ys) => exists i :: 0 <= i < |ys| && Occurs(x, ys[i])
  }

  /** Flattening a concatenation flattens each part in turn. */
  lemma {:induction false} FlattenAppend<T>(a: seq<Nested<T>>, b: seq<Nested<T>>)
    ensures Flatten(a + b) == Flatten(a) + Flatten(b)
  {
    if |a| > 0 {
      assert (a + b)[0] == a[0];
      assert (a + b)[1..] == a[1..] + b;
      FlattenAppend(a[1..], b);
    } else {
      assert a + b == b;
    }
  }

  /** A list with no nested lists flattens to itself. */
  lemma {:induction false} FlattenLeaves<T>(xs: seq<T>)
    ensures Flatten(seq(|xs|, i requires 0 <= i < |xs| => Leaf(xs[i]))) == xs
  {
    var ns := seq(|xs|, i requires 0 <= i < |xs| => Leaf(xs[i]));
    if |xs| > 0 {
      assert ns[1..] == seq(|xs| - 1, i requires 0 <= i < |xs| - 1 => Leaf(xs[1..][i]));
      FlattenLeaves(xs[1..]);
      assert [xs[0]] + xs[1..] == xs;
    }
  }

  /** The flattened list holds exactly the leaves that occur in the nested lists. */
  lemma {:induction false} FlattenMembers<T>(xs: seq<Nested<T>>, x: T)
    ensures x in Flatten(xs) <==> exists i :: 0 <= i < |xs| && Occurs(x, xs[i])
  {
    if |xs| > 0 {
      FlattenMembers(xs[1..], x);
      match xs[0]
      case Leaf(y) =>
      case Group(ys) =>
        FlattenMembers(ys, x);
      if exists i :: 0 <= i < |xs| && Occurs(x, xs[i]) {
        var i :| 0 <= i < |xs| && Occurs(x, xs[i]);
        if i > 0 {
          assert xs[1..][i - 1] == xs[i];
        }
      }
      if exists i :: 0 <= i < |xs| - 1 && Occurs(x, xs[1..][i]) {
        var i :| 0 <= i < |xs| - 1 && Occurs(x, xs[1..][i]);
        assert xs[i + 1] == xs[1..][i];
      }
    }
  }

  // ------------------------------------------------------------------ the lattice statement

  /** `makeLatticeString`: `lattice = (n1 n2 ...)`. */
  function LatticeString(names: seq<string>): string
  {
    "lattice = (" + Join(" ", names) + ")"
  }

  /** `makeLatticeDict`: `{"lattice": "(n1 n2 ...)"}`. */
  function LatticeDict(names: seq<string>): Dict
  {
    map[LatticeKey := Str("(" + Join(" ", names) + ")")]
  }

  /**
   * The text form and the dict form of the lattice agree: `str2dict` of the
   * string is the dict, so either may configure the beamline element.
   */
  lemma {:induction false} LatticeStringIsDict(names: seq<string>)
    requires forall i :: 0 <= i < |names| ==> '=' !in names[i]
    ensures ConfText(LatticeString(names)) == LatticeDict(names)
  {
    var v := "(" + Join(" ", names) + ")";
    JoinLacks(" ", names, '=');
    assert LatticeString(names) == "lattice = " + v;
    LatticeConfText(v);
    ParenthesisedStripped(Join(" ", names));
  }

  /** A parenthesised text has no blank at either end. */
  lemma {:induction false} ParenthesisedStripped(t: string)
    ensures Strip("(" + t + ")") == "(" + t + ")"
  {
    var v := "(" + t + ")";
    assert v[0] == '(' && v[|v| - 1] == ')';
    StripTrimmed(v);
  }

  /** Splitting the text between the parentheses at blanks gives the names back. */
  lemma {:induction false} LatticeDictNames(names: seq<string>)
    requires Words(names)
    ensures var v := LatticeDict(names)[LatticeKey].s;
            v[0] == '(' && v[|v| - 1] == ')' && SplitWs(v[1..|v| - 1]) == names
  {
    var v := LatticeDict(names)[LatticeKey].s;
    assert v[1..|v| - 1] == Join(" ", names);
    SplitWsJoin(names);
  }

  // ------------------------------------------------------------------ positions

  function Sum(ls: seq<real>): real
  {
    if |ls| == 0 then 0.0 else Sum(ls[..|ls| - 1]) + ls[|ls| - 1]
  }

  /** Each element placed at the start position plus the lengths before it. */
  function Positions(s0: real, ls: seq<real>): (r: seq<real>)
    ensures |r| == |ls|
  {
    seq(|ls|, i requires 0 <= i < |ls| => s0 + Sum(ls[..i]))
  }

  /** The first element is at the start; each next one is one length further on. */
  lemma {:induction false} PositionsStep(s0: real, ls: seq<real>, i: nat)
    requires i < |ls|
    ensures Positions(s0, ls)[0] == s0
    ensures i + 1 < |ls| ==> Positions(s0, ls)[i + 1] == Positions(s0, ls)[i] + ls[i]
  {
    assert ls[..0] == [];
    assert ls[..i + 1][..i] == ls[..i];
  }

  /** The lengths `getLength` reports, in list order. */
  function Lengths(objs: seq<MagBlock>): (r: seq<real>)
    reads objs`simukeys, objs`simuinfo
    decreases |objs|
    ensures |r| == |objs| && forall i {:trigger r[i]} :: 0 <= i < |objs| ==> r[i] == objs[i].Length()
  {
    if |objs| == 0 then [] else Lengths(objs[..|objs| - 1]) + [objs[|objs| - 1].Length()]
  }

  /** `ps` starts at `s0` and advances by each element's length. */
  ghost predicate Steps(s0: real, objs: seq<MagBlock>, ps: seq<real>)
    reads objs`simukeys, objs`simuinfo
  {
    && |ps| == |objs|
    && (|objs| > 0 ==> ps[0] == s0)
    && forall i :: 0 <= i < |objs| - 1 ==> ps[i + 1] == ps[i] + objs[i].Length()
  }

  /** Each element stands at its position in `ps`. */
  ghost predicate PlacedAt(objs: seq<MagBlock>, ps: seq<real>)
    reads objs`spos
  {
    |ps| == |objs| && forall i {:trigger ps[i]} :: 0 <= i < |objs| ==> objs[i].spos == Some(ps[i])
  }

  /** The positions of a list of elements start at `s0` and advance by each element's length. */
  lemma {:induction false} PlacementSteps(s0: real, objs: seq<MagBlock>)
    ensures Steps(s0, objs, Positions(s0, Lengths(objs)))
  {
    var lens := Lengths(objs);
    if |objs| > 0 {
      PositionsStep(s0, lens, 0);
    }
    forall i | 0 <= i < |objs| - 1
      ensures Positions(s0, lens)[i + 1] == Positions(s0, lens)[i] + objs[i].Length()
    {
      PositionsStep(s0, lens, i);
    }
  }

  /** Lengths depend on the simulation stores only. */
  twostate lemma {:induction false} LengthsKept(objs: seq<MagBlock>)
    requires forall o :: o in objs ==> unchanged(o`simukeys, o`simuinfo)
    ensures Lengths(objs) == old(Lengths(objs))
  {
    forall i | 0 <= i < |objs|
      ensures Lengths(objs)[i] == old(Lengths(objs))[i]
    {
      assert objs[i] in objs;
      assert objs[i].Length() == old(objs[i].Length());
    }
  }

  function NamesOf(objs: seq<MagBlock>): (r: seq<string>)
    decreases |objs|
    ensures |r| == |objs| && forall i :: 0 <= i < |objs| ==> r[i] == objs[i].name
  {
    if |objs| == 0 then [] else NamesOf(objs[..|objs| - 1]) + [objs[|objs| - 1].name]
  }

  /** `filter(lambda x: x.name == name, objs)` */
  function ByName(objs: seq<MagBlock>, name: string): (r: seq<MagBlock>)
    decreases |objs|
    ensures forall i :: 0 <= i < |r| ==> r[i] in objs && r[i].name == name
    ensures forall i :: 0 <= i < |objs| && objs[i].name == name ==> objs[i] in r
  {
    if |objs| == 0 then []
    else
      var last := objs[|objs| - 1];
      ByName(objs[..|objs| - 1], name) + (if last.name == name then [last] else [])
  }

  /** As many elements have the name as the name list shows it. */
  lemma {:induction false} ByNameCount(objs: seq<MagBlock>, name: string)
    ensures |ByName(objs, name)| == Count(NamesOf(objs), name)
  {
    if |objs| > 0 {
      ByNameCount(objs[..|objs| - 1], name);
      assert NamesOf(objs)[..|objs| - 1] == NamesOf(objs[..|objs| - 1]);
    }
  }

  lemma {:induction false} DistinctAppend<T>(xs: seq<T>, ys: seq<T>)
    requires Distinct(xs) && Distinct(ys)
    requires forall j :: 0 <= j < |xs| ==> xs[j] !in ys
    ensures Distinct(xs + ys)
  {
  }

  /** The counter, the name list and the object list in step, each object listed once. */
  ghost predicate Listed(n: nat, names: seq<string>, objs: seq<MagBlock>)
  {
    && n == |names| == |objs| && (forall i :: 0 <= i < |objs| ==> names[i] == objs[i].name)
    && Distinct(objs)
  }

  /** Appending new objects with their names keeps the lists in step. */
  lemma {:induction false} ListedAppend(n: nat, names: seq<string>, objs: seq<MagBlock>, more: seq<MagBlock>)
    requires Listed(n, names, objs) && Distinct(more)
    requires forall j :: 0 <= j < |objs| ==> objs[j] !in more
    ensures Listed(n + |more|, names + NamesOf(more), objs + more)
  {
    var ns, os := names + NamesOf(more), objs + more;
    forall i | 0 <= i < |os|
      ensures ns[i] == os[i].name
    {
      if i >= |objs| {
        assert ns[i] == NamesOf(more)[i - |objs|] && os[i] == more[i - |objs|];
      }
    }
    DistinctAppend(objs, more);
    assert n + |more| == |ns| == |os|;
  }

  /** The lists grew by one entry for each of `added`, in order, the old entries kept. */
  ghost predicate Grown(names0: seq<string>, objs0: seq<MagBlock>, names: seq<string>, objs: seq<MagBlock>, added: seq<MagBlock>)
  {
    names == names0 + NamesOf(added) && |objs| == |objs0| + |added| && objs[..|objs0|] == objs0
  }

  /** Everything `copy.deepcopy` carries over from an element, its position aside. */
  datatype Settings = Settings(
    name: string, typename: string, comminfo: Dict, simuinfo: Dict, ctrlinfo: Dict, miscinfo: Dict,
    simukeys: seq<string>, ctrlkeys: seq<string>, misckeys: seq<string>, style: Dict)

  ghost function SettingsOf(a: MagBlock): Settings
    reads a`comminfo, a`simuinfo, a`ctrlinfo, a`miscinfo, a`simukeys, a`ctrlkeys, a`misckeys, a`style
  {
    Settings(a.name, a.typename, a.comminfo, a.simuinfo, a.ctrlinfo, a.miscinfo,
             a.simukeys, a.ctrlkeys, a.misckeys, a.style)
  }

  ghost function SettingsAll(xs: seq<MagBlock>): (r: seq<Settings>)
    reads xs`comminfo, xs`simuinfo, xs`ctrlinfo, xs`miscinfo, xs`simukeys, xs`ctrlkeys, xs`misckeys, xs`style
    ensures |r| == |xs| && forall j :: 0 <= j < |xs| ==> r[j] == SettingsOf(xs[j])
  {
    if xs == [] then [] else [SettingsOf(xs[0])] + SettingsAll(xs[1..])
  }

  /** An element whose stores, key lists and style are untouched keeps its settings. */
  twostate lemma SettingsKept(a: MagBlock)
    requires unchanged(a`comminfo, a`simuinfo, a`ctrlinfo, a`miscinfo, a`simukeys, a`ctrlkeys, a`misckeys, a`style)
    ensures SettingsOf(a) == old(SettingsOf(a))
  {
  }

  /** Two elements with the same configuration; the position may differ. */
  ghost predicate SameConf(a: MagBlock, b: MagBlock)
    reads a, b
  {
    SettingsOf(a) == SettingsOf(b)
  }

  // ------------------------------------------------------------------ the model

  class Models {
    var mode: string
    var latticeName: string
    var elecnt: nat
    var names: seq<string>
    var objs: seq<MagBlock>
    var lattice: MagBlock

    /**
     * The counter, the name list and the object list in step; each object a
     * private copy, listed once, apart from the beamline element.
     */
    ghost predicate Valid()
      reads this
    {
      Listed(elecnt, names, objs) && lattice !in objs
    }

    /** A lattice named `name` (upper-cased) whose beamline element starts as `lattice = ()`. */
    constructor (cls: BlockClass, name: string, mode: string)
      requires cls.Valid()
      modifies cls`objcnt
      ensures cls.objcnt == old(cls.objcnt) + 1
      ensures this.mode == Lower(mode) && latticeName == Upper(name)
      ensures elecnt == 0 && names == [] && objs == []
      ensures fresh(lattice) && lattice.name == Upper(name) && lattice.typename == "BEAMLINE"
      ensures lattice.simuinfo == LatticeDict([]) && lattice.Valid()
      ensures Valid()
    {
      this.mode := Lower(mode);
      latticeName := Upper(name);
      elecnt, names, objs := 0, [], [];
      // the text `lattice = ()` reads as this dict (`LatticeStringIsDict`)
      lattice := new MagBlock(cls, BeamlineBlock, Upper(name), Fields(LatticeDict([])));
    }

    /** The `name` property: always upper case. */
    function Name(): (r: string)
      reads this
      ensures r == Upper(r)
    {
      UpperIdempotent(latticeName);
      Upper(latticeName)
    }

    /** The `name` setter: the property then reads the upper-cased name. */
    method SetName(name: string)
      modifies this`latticeName
      ensures latticeName == Upper(name) && Name() == Upper(name)
    {
      latticeName := Upper(name);
      UpperIdempotent(name);
    }

    /** The `mode` setter stores the mode in lower case. */
    method SetMode(mode: string)
      modifies this`mode
      ensures this.mode == Lower(mode)
    {
      this.mode := Lower(mode);
    }

    /**
     * `addElement(*ele)`: a copy of every leaf of `ele`, in order, appended to the
     * object list and its name to the name list; the beamline element then lists
     * all names and every element is placed from 0.
     */
    method AddElement(ele: seq<Nested<MagBlock>>) returns (n: nat)
      requires Valid() && lattice.Valid()
      modifies this`objs, this`names, this`elecnt, objs`spos
      modifies lattice`simuinfo, lattice`simukeys, lattice`ctrlinfo, lattice`ctrlkeys, lattice`miscinfo, lattice`misckeys
      ensures n == elecnt && Valid() && lattice.Valid()
      ensures Grown(old(names), old(objs), names, objs, Flatten(ele))
      ensures forall j :: |old(objs)| <= j < |objs| ==> fresh(objs[j])
      ensures forall j :: 0 <= j < |Flatten(ele)| ==> SettingsOf(objs[|old(objs)| + j]) == old(SettingsAll(Flatten(ele)))[j]
      ensures Stored(true, old(lattice.simuinfo), old(lattice.simukeys), LatticeDict(names), lattice.simuinfo, lattice.simukeys)
      ensures lattice.ctrlinfo == old(lattice.ctrlinfo) && lattice.ctrlkeys == old(lattice.ctrlkeys)
      ensures lattice.miscinfo == old(lattice.miscinfo) && lattice.misckeys == old(lattice.misckeys)
      ensures PlacedAt(objs, Positions(0.0, Lengths(objs)))
    {
      AddLeaves(Flatten(ele));
      n := elecnt;
    }

    /** `addElement` once its arguments are flattened into `leaves`. */
    method AddLeaves(leaves: seq<MagBlock>)
      requires Valid() && lattice.Valid()
      modifies this`objs, this`names, this`elecnt, objs`spos
      modifies lattice`simuinfo, lattice`simukeys, lattice`ctrlinfo, lattice`ctrlkeys, lattice`miscinfo, lattice`misckeys
      ensures Valid() && lattice.Valid()
      ensures Grown(old(names), old(objs), names, objs, leaves)
      ensures forall j :: |old(objs)| <= j < |objs| ==> fresh(objs[j])
      ensures forall j :: 0 <= j < |leaves| ==> SettingsOf(objs[|old(objs)| + j]) == old(SettingsAll(leaves))[j]
      ensures Stored(true, old(lattice.simuinfo), old(lattice.simukeys), LatticeDict(names), lattice.simuinfo, lattice.simukeys)
      ensures lattice.ctrlinfo == old(lattice.ctrlinfo) && lattice.ctrlkeys == old(lattice.ctrlkeys)
      ensures lattice.miscinfo == old(lattice.miscinfo) && lattice.misckeys == old(lattice.misckeys)
      ensures PlacedAt(objs, Positions(0.0, Lengths(objs)))
    {
      var _ := AppendCopies(leaves);
      ghost var grown, listed := objs, names;
      Refresh();
      assert objs == grown && names == listed;
    }

    /** The end of `addElement`: the beamline element lists all names, every element is placed from 0. */
    method Refresh()
      requires Valid() && lattice.Valid()
      modifies objs`spos
      modifies lattice`simuinfo, lattice`simukeys, lattice`ctrlinfo, lattice`ctrlkeys, lattice`miscinfo, lattice`misckeys
      ensures Valid() && lattice.Valid()
      ensures Stored(true, old(lattice.simuinfo), old(lattice.simukeys), LatticeDict(names), lattice.simuinfo, lattice.simukeys)
      ensures lattice.ctrlinfo == old(lattice.ctrlinfo) && lattice.ctrlkeys == old(lattice.ctrlkeys)
      ensures lattice.miscinfo == old(lattice.miscinfo) && lattice.misckeys == old(lattice.misckeys)
      ensures forall j :: 0 <= j < |objs| ==> SettingsOf(objs[j]) == old(SettingsOf(objs[j]))
      ensures PlacedAt(objs, Positions(0.0, Lengths(objs)))
    {
      var _ := lattice.SetConf(Fields(LatticeDict(names)), "simu");
      InitPos(0.0);
      forall j | 0 <= j < |objs|
        ensures SettingsOf(objs[j]) == old(SettingsOf(objs[j]))
      {
        SettingsKept(objs[j]);
      }
    }

    /** The loop of `addElement`: deep copies appended, the counter increased with them. */
    method AppendCopies(leaves: seq<MagBlock>) returns (copies: seq<MagBlock>)
      requires Valid()
      modifies this`objs, this`names, this`elecnt
      ensures Valid() && Grown(old(names), old(objs), names, objs, leaves)
      ensures objs == old(objs) + copies && |copies| == |leaves|
      ensures forall j :: 0 <= j < |copies| ==> fresh(copies[j])
      ensures unchanged(lattice)
      ensures forall j :: 0 <= j < |leaves| ==> SettingsOf(objs[|old(objs)| + j]) == old(SettingsAll(leaves))[j]
    {
      copies := DeepCopies(leaves);
      assert NamesOf(copies) == NamesOf(leaves);
      ListedAppend(elecnt, names, objs, copies);
      objs, names, elecnt := objs + copies, names + NamesOf(copies), elecnt + |copies|;
    }

    /** `copy.deepcopy` of each element, in order: new, distinct blocks with the same contents. */
    static method DeepCopies(leaves: seq<MagBlock>) returns (copies: seq<MagBlock>)
      ensures |copies| == |leaves| && Distinct(copies)
      ensures forall j :: 0 <= j < |copies| ==> fresh(copies[j]) && SameConf(copies[j], leaves[j])
      ensures forall j :: 0 <= j < |copies| ==> SettingsOf(copies[j]) == old(SettingsAll(leaves))[j]
    {
      copies := [];
      for i := 0 to |leaves|
        invariant |copies| == i && Distinct(copies)
        invariant forall j :: 0 <= j < i ==> fresh(copies[j]) && SameConf(copies[j], leaves[j])
      {
        var e := new MagBlock.Copy(leaves[i]);
        copies := copies + [e];
      }
    }

    /**
     * `initPos(startpos)`: the first element at `startpos`, each next one at the
     * previous position plus the previous element's length.
     */
    method InitPos(startpos: real)
      requires Valid()
      modifies objs`spos
      ensures Valid() && Lengths(objs) == old(Lengths(objs))
      ensures PlacedAt(objs, Positions(startpos, Lengths(objs)))
    {
      ghost var ps := Positions(startpos, Lengths(objs));
      PlacementSteps(startpos, objs);
      Place(objs, startpos, ps);
      LengthsKept(objs);
    }

    /**
     * The loop of `initPos` over a list of distinct elements: `ps` holds the
     * start position followed by each next one a length further on.
     */
    static method Place(os: seq<MagBlock>, startpos: real, ghost ps: seq<real>)
      requires Distinct(os) && Steps(startpos, os, ps)
      modifies os`spos
      ensures PlacedAt(os, ps)
    {
      var spos := startpos;
      for i := 0 to |os|
        invariant i < |os| ==> spos == ps[i]
        invariant forall j :: 0 <= j < i ==> os[j].spos == Some(ps[j])
      {
        assert forall j :: 0 <= j < i ==> os[j] != os[i];
        var l := os[i].Length();
        os[i].SetPosition(spos);
        spos := spos + l;
      }
    }

    /** `getElementsByName(name)`: the elements with that name, in list order. */
    method GetElementsByName(name: string) returns (r: seq<MagBlock>)
      ensures r == ByName(objs, name)
    {
      r := [];
      for i := 0 to |objs|
        invariant r == ByName(objs[..i], name)
      {
        assert objs[..i + 1][..i] == objs[..i];
        if objs[i].name == name {
          r := r + [objs[i]];
        }
      }
      assert objs[..|objs|] == objs;
    }
  }
}
