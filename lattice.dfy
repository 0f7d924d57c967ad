/**
 * `Lattice`: the namespace of a lattice file together with its element and
 * beamline keyword lists, and the operations that expand, order, select,
 * change and write out the beamlines it defines.
 */
module BeamLattice {
  import opened Wrappers
  import opened PyStr
  import opened PySeq
  import opened LatticeData
  import opened LatticeExpand
  import opened LatticeSelect
  import opened LatticeFormat

  // ------------------------------------------------------------------ the keyword lists

  /** Every keyword but the prefix list has a type `getElementType` can read. */
  predicate Resolvable(ns: Namespace)
  {
    forall k :: k in ns && k != PrefixKey ==> ElementType(ns, k).Some?
  }

  /** Every keyword but the prefix list is stored upper-cased, as the parser stores them. */
  predicate Canonical(ns: Namespace)
  {
    forall k :: k in ns && k != PrefixKey ==> Upper(k) == k
  }

  /** `getElementType(k).lower() == 'beamline'` for a keyword other than the prefix list. */
  predicate IsLineKey(ns: Namespace, k: string)
  {
    k != PrefixKey && ElementType(ns, k).Some? && Lower(ElementType(ns, k).value) == BeamlineType
  }

  /** `bls` lists exactly the beamline keywords. */
  predicate BeamlineKeys(ns: Namespace, bls: seq<string>)
  {
    && (forall k :: k in bls ==> k in ns && IsLineKey(ns, k))
    && (forall k :: k in ns && IsLineKey(ns, k) ==> k in bls)
  }

  /** `eles` lists exactly the other keywords, the prefix list left out. */
  predicate ElementKeys(ns: Namespace, eles: seq<string>)
  {
    && (forall k :: k in eles ==> k in ns && k != PrefixKey && !IsLineKey(ns, k))
    && (forall k :: k in ns && k != PrefixKey && !IsLineKey(ns, k) ==> k in eles)
  }

  // ------------------------------------------------------------------ specifications of the queries

  /** `orderLattice(bl)`: the triples of the extended line; `None` when it raises. */
  function LatticeOrder(ns: Namespace, bls: seq<string>, rank: map<string, nat>, bl: string): (r: Option<seq<Placed>>)
    requires Acyclic(ns, bls, rank)
    ensures r.Some? ==> FullBeamline(ns, bls, rank, bl, true).Expanded?
    ensures r.Some? ==> |r.value| == |FullBeamline(ns, bls, rank, bl, true).names|
  {
    match FullBeamline(ns, bls, rank, bl, true)
    case Expanded(names) => Ordered(ns, names)
    case _ => None
  }

  /** `getElementByOrder(bl, etype, irange)`; `None` stands for the `''` it returns. */
  function ElementsByOrder(ns: Namespace, bls: seq<string>, rank: map<string, nat>, bl: string, etype: string, irange: string): (r: Option<seq<Placed>>)
    requires Acyclic(ns, bls, rank)
    ensures r.Some? ==> Upper(bl) in bls && LatticeOrder(ns, bls, rank, bl).Some?
    ensures r.Some? ==> forall p :: p in r.value ==> p.etype == Upper(etype) && p in LatticeOrder(ns, bls, rank, bl).value
  {
    if Upper(bl) !in bls then None
    else match LatticeOrder(ns, bls, rank, bl)
      case None => None
      case Some(ps) => Select(OfType(ps, Upper(etype)), irange)
  }

  /** The outcome of `getElementByName`: the matching triples, the `''` of a miss, or an exception. */
  datatype Lookup = Found(items: seq<Placed>) | Missing | Failed

  /** `getElementByName(bl, name)` */
  function ElementsByName(ns: Namespace, bls: seq<string>, rank: map<string, nat>, bl: string, name: string): (r: Lookup)
    requires Acyclic(ns, bls, rank)
    ensures r.Found? ==> LatticeOrder(ns, bls, rank, bl).Some?
    ensures r.Found? ==> forall p :: p in r.items ==> p.name == Lower(name) && p in LatticeOrder(ns, bls, rank, bl).value
  {
    if Upper(bl) !in bls then Missing
    else match FullBeamline(ns, bls, rank, bl, true)
      case Expanded(names) =>
        if Lower(name) !in names then Missing
        else (match Ordered(ns, names)
          case None => Failed
          case Some(ps) => Found(Named(ps, Lower(name))))
      case _ => Failed
  }

  /**
   * The namespace after `manipulateLattice` and whether it returned: a malformed
   * operation raises before any change; a failed selection changes nothing;
   * otherwise the selected elements are updated in order until one fails.
   */
  function Manipulated(ns: Namespace, bls: seq<string>, rank: map<string, nat>, bl: string, etype: string, irange: string, prop: string, opstr: string): (r: (Namespace, bool))
    requires Acyclic(ns, bls, rank)
    ensures r.0.Keys == ns.Keys
    ensures ParseOp(opstr).None? ==> r == (ns, false)
  {
    match ParseOp(opstr)
    case None => (ns, false)
    case Some(op) =>
      var sel := ElementsByOrder(ns, bls, rank, bl, etype, irange);
      ApplyAllFrame(ns, if sel.Some? then sel.value else [], prop, op);
      ApplyAll(ns, if sel.Some? then sel.value else [], prop, op)
  }

  /** One item of the `line` argument of `generateLatticeLine`: a name, or a list of names. */
  datatype LineItem = Name(name: string) | Names(names: seq<string>)

  /** The names of a `line` argument, lists spliced in. */
  function FlattenLine(line: seq<LineItem>): (r: seq<string>)
    ensures |line| > 0 && line[|line| - 1].Name? ==> |r| > 0 && r[|r| - 1] == line[|line| - 1].name
  {
    if |line| == 0 then []
    else
      var init := FlattenLine(line[..|line| - 1]);
      match line[|line| - 1]
      case Name(n) => init + [n]
      case Names(ns) => init + ns
  }

  /**
   * The element list `generateLatticeFile` writes: the extended line, led by the
   * charge element (or `''`) when its first element is not of type CHARGE.
   * `None` stands for the exception raised on an undefined or empty line.
   */
  function FileElements(ns: Namespace, eles: seq<string>, expansion: Expansion): (r: Option<seq<string>>)
    ensures r.Some? ==> expansion.Expanded? && |expansion.names| > 0
    ensures r.Some? ==> |r.value| > 0 && (r.value[0] == "" || ElementType(ns, r.value[0]) == Some("CHARGE"))
    ensures r.Some? ==> r.value == expansion.names || r.value == [r.value[0]] + expansion.names
  {
    match expansion
    case Expanded(names) =>
      if |names| == 0 then None
      else (match ElementType(ns, names[0])
        case None => None
        case Some(t) =>
          if t == "CHARGE" then Some(names)
          else (match ChargeElement(ns, eles)
            case None => None
            case Some(c) => Some([c] + names)))
    case _ => None
  }

  /**
   * `text` is the statement `formatElement` writes for the name `d` rinses to,
   * its parameters in the order `ks`.
   */
  predicate Stated(ns: Namespace, d: string, text: string, ks: seq<string>, show: real -> string)
  {
    && Rinse(d).Some? && ElementType(ns, Rinse(d).value.name).Some?
    && (forall k :: k in ks ==> k in ElementConf(ns, Rinse(d).value.name))
    && text == ElementLine(Rinse(d).value.name, ElementType(ns, Rinse(d).value.name).value,
                           Items(ElementConf(ns, Rinse(d).value.name), ks, show))
  }

  /** `lines` and `kss` state the first `|lines|` names of `defs`, in order. */
  ghost predicate StatedAll(ns: Namespace, defs: seq<string>, lines: seq<string>, kss: seq<seq<string>>, show: real -> string)
  {
    AllHold(StatedIn(ns, show), defs, lines, kss)
  }

  function StatedIn(ns: Namespace, show: real -> string): (string, string, seq<string>) -> bool
  {
    (d, text, ks) => Stated(ns, d, text, ks, show)
  }

  /** Once every name is stated, every name can be written. */
  lemma {:induction false} StatedWritable(ns: Namespace, defs: seq<string>, lines: seq<string>, kss: seq<seq<string>>, show: real -> string)
    requires StatedAll(ns, defs, lines, kss, show) && |lines| == |defs|
    ensures Writable(ns, defs)
  {
    forall e | e in defs
      ensures Rinse(e).Some? && ElementType(ns, Rinse(e).value.name).Some?
    {
      var j :| 0 <= j < |defs| && defs[j] == e;
      assert Stated(ns, defs[j], lines[j], kss[j], show);
    }
  }

  /** The element statements a file can be written with: every listed name rinses to a keyword with a type. */
  predicate Writable(ns: Namespace, els: seq<string>)
  {
    forall e :: e in els ==> Rinse(e).Some? && ElementType(ns, Rinse(e).value.name).Some?
  }

  // ------------------------------------------------------------------ the object

  class Lattice {
    var allElements: Namespace
    var kwsEle: seq<string>
    var kwsBl: seq<string>

    /** The beamline list matches the namespace, whose keywords are upper-case and typed. */
    ghost predicate Valid()
      reads this
    {
      Canonical(allElements) && Resolvable(allElements) && BeamlineKeys(allElements, kwsBl)
    }

    /** `Lattice(elements)` with `elements` already a dict. */
    constructor (elements: Namespace)
      requires Resolvable(elements)
      ensures allElements == elements
      ensures BeamlineKeys(elements, kwsBl) && ElementKeys(elements, kwsEle)
      ensures Distinct(kwsBl) && Distinct(kwsEle)
      ensures Canonical(elements) ==> Valid()
    {
      allElements := elements;
      new;
      kwsEle, kwsBl := GetAllKws();
    }

    /** `getAllKws`: the keywords split into elements and beamlines, each listed once, in dict order. */
    method GetAllKws() returns (eles: seq<string>, bls: seq<string>)
      requires Resolvable(allElements)
      ensures BeamlineKeys(allElements, bls) && ElementKeys(allElements, eles)
      ensures Distinct(bls) && Distinct(eles)
    {
      eles, bls := [], [];
      var todo := allElements.Keys;
      while todo != {}
        invariant todo <= allElements.Keys
        invariant forall k :: k in bls <==> k in allElements && k !in todo && IsLineKey(allElements, k)
        invariant forall k :: k in eles <==> k in allElements && k !in todo && k != PrefixKey && !IsLineKey(allElements, k)
        invariant Distinct(bls) && Distinct(eles)
        decreases |todo|
      {
        var ele :| ele in todo;
        todo := todo - {ele};
        if ele == PrefixKey {
        } else if Lower(ElementType(allElements, ele).value) == BeamlineType {
          bls := bls + [ele];
        } else {
          eles := eles + [ele];
        }
      }
    }

    /** `isBeamline(kw)` */
    function IsBeamline(kw: string): (b: bool)
      reads this
      ensures Valid() ==> (b <==> Upper(kw) in allElements && IsLineKey(allElements, Upper(kw)))
    {
      Upper(kw) in kwsBl
    }

    /** `getFullBeamline(kw, extend)`, the reference list built by `append`/`extend`. */
    method GetFullBeamline(kw: string, extend: bool, ghost rank: map<string, nat>) returns (r: Expansion)
      requires Acyclic(allElements, kwsBl, rank)
      ensures r == FullBeamline(allElements, kwsBl, rank, kw, extend)
      decreases if Upper(kw) in kwsBl then rank[Upper(kw)] else 0, 1
    {
      if !IsBeamline(kw) {
        return NotBeamline;
      }
      var raw := BeamlineRefs(allElements, kw);
      if raw.None? {
        return Raises;
      }
      var refs := raw.value;
      AcyclicRefs(allElements, kwsBl, rank, kw);
      ghost var bound := rank[Upper(kw)];
      var fullbl: seq<string> := [];
      for i := 0 to |refs|
        invariant RefsBelow(kwsBl, rank, refs[..i], bound)
        invariant ExpandRefs(allElements, kwsBl, rank, refs[..i], extend, bound) == Expanded(fullbl)
      {
        assert refs[..i + 1][..i] == refs[..i];
        assert RefsBelow(kwsBl, rank, refs[..i + 1], bound);
        var piece := GetPiece(refs[i], extend, rank, bound);
        if !piece.Expanded? {
          ExpandRefsPrefixRaises(allElements, kwsBl, rank, refs, i + 1, extend, bound);
          return Raises;
        }
        fullbl := fullbl + piece.names;
      }
      assert refs[..|refs|] == refs;
      return Expanded(fullbl);
    }

    /** One pass of the loop of `getFullBeamline`: what the reference `ele` contributes. */
    method GetPiece(ele: string, extend: bool, ghost rank: map<string, nat>, ghost bound: nat) returns (piece: Expansion)
      requires Acyclic(allElements, kwsBl, rank) && RefBelow(kwsBl, rank, ele, bound)
      ensures piece == Piece(allElements, kwsBl, rank, ele, extend, bound)
      decreases bound, 0
    {
      if !extend {
        if IsBeamline(ele) {
          piece := GetFullBeamline(ele, false, rank);
        } else {
          piece := Expanded([ele]);
        }
      } else {
        var rinsed := Rinse(ele);
        if rinsed.None? {
          piece := Raises;
        } else if IsBeamline(rinsed.value.name) {
          var sub := GetFullBeamline(rinsed.value.name, true, rank);
          piece := if sub.Expanded? then Expanded(Repeat(sub.names, rinsed.value.num)) else sub;
        } else {
          piece := Expanded(Repeat([rinsed.value.name], rinsed.value.num));
        }
      }
    }

    /** `orderLattice(bl)`: names, types and per-type counts of the extended line. */
    method OrderLattice(bl: string, ghost rank: map<string, nat>) returns (r: Option<seq<Placed>>)
      requires Acyclic(allElements, kwsBl, rank)
      ensures r == LatticeOrder(allElements, kwsBl, rank, bl)
    {
      var full := GetFullBeamline(bl, true, rank);
      if !full.Expanded? {
        return None;
      }
      var types := TypesOf(allElements, full.names);
      if types.None? {
        return None;
      }
      var order := OrderCounts(types.value);
      return Some(Zip3(full.names, types.value, order));
    }

    /** `getElementByOrder(bl, etype, irange)` */
    method GetElementByOrder(bl: string, etype: string, irange: string, ghost rank: map<string, nat>) returns (r: Option<seq<Placed>>)
      requires Acyclic(allElements, kwsBl, rank)
      ensures r == ElementsByOrder(allElements, kwsBl, rank, bl, etype, irange)
    {
      if Upper(bl) !in kwsBl {
        return None;
      }
      var ordered := OrderLattice(bl, rank);
      if ordered.None? {
        return None;
      }
      var matched := OfType(ordered.value, Upper(etype));
      r := Select(matched, irange);
    }

    /** `getElementByName(bl, name)` */
    method GetElementByName(bl: string, name: string, ghost rank: map<string, nat>) returns (r: Lookup)
      requires Acyclic(allElements, kwsBl, rank)
      ensures r == ElementsByName(allElements, kwsBl, rank, bl, name)
    {
      if Upper(bl) !in kwsBl {
        return Missing;
      }
      var full := GetFullBeamline(bl, true, rank);
      if !full.Expanded? {
        return Failed;
      }
      if Lower(name) !in full.names {
        return Missing;
      }
      var ordered := OrderLattice(bl, rank);
      if ordered.None? {
        return Failed;
      }
      return Found(Named(ordered.value, Lower(name)));
    }

    /**
     * `manipulateLattice(bl, etype, irange, prop, opstr)`: the selected elements'
     * property rewritten in place, one after another.
     */
    method ManipulateLattice(bl: string, etype: string, irange: string, prop: string, opstr: string, ghost rank: map<string, nat>) returns (ok: bool)
      requires Acyclic(allElements, kwsBl, rank)
      modifies this
      ensures kwsBl == old(kwsBl) && kwsEle == old(kwsEle)
      ensures (allElements, ok) == Manipulated(old(allElements), kwsBl, rank, bl, etype, irange, prop, opstr)
      ensures Acyclic(allElements, kwsBl, rank)
      ensures old(Valid()) ==> Valid()
    {
      ghost var ns0 := allElements;
      var opeles := GetElementByOrder(bl, etype, irange, rank);
      var op := ParseOp(opstr);
      if op.None? {
        return false;
      }
      var items := if opeles.Some? then opeles.value else [];
      ok := UpdateAll(items, prop, op.value);
      ApplyAllFrame(ns0, items, prop, op.value);
      AcyclicKept(ns0, allElements, kwsBl, rank);
      ValidKept(ns0, allElements, kwsBl);
    }

    /** The loop of `manipulateLattice`: each selected element's property updated in turn, until one fails. */
    method UpdateAll(items: seq<Placed>, prop: string, op: Op) returns (ok: bool)
      modifies this
      ensures (allElements, ok) == ApplyAll(old(allElements), items, prop, op)
      ensures kwsBl == old(kwsBl) && kwsEle == old(kwsEle)
    {
      ok := true;
      var i := 0;
      while ok && i < |items|
        invariant i <= |items| && kwsBl == old(kwsBl) && kwsEle == old(kwsEle)
        invariant ok ==> ApplyAll(old(allElements), items[..i], prop, op) == (allElements, true)
        invariant !ok ==> ApplyAll(old(allElements), items, prop, op) == (allElements, false)
        decreases |items| - i, ok
      {
        ApplyAllStep(old(allElements), items, i, prop, op);
        ghost var before := allElements;
        var key, p := Upper(items[i].name), Lower(prop);
        var val0New := None;
        if key in allElements && allElements[key].Element? && p in allElements[key].params && allElements[key].params[p].Num? {
          val0New := ApplyOp(op, allElements[key].params[p].r);
        }
        if val0New.None? {
          assert UpdateOne(before, items[i].name, prop, op).None?;
          ApplyAllStops(old(allElements), items, i + 1, prop, op);
          ok := false;
        } else {
          allElements := allElements[key := Element(allElements[key].etype, allElements[key].params[p := Num(val0New.value)])];
          assert UpdateOne(before, items[i].name, prop, op) == Some(allElements);
          i := i + 1;
        }
      }
      if ok {
        assert items[..i] == items;
      }
    }

    /**
     * `generateLatticeLine(latname, line)`: a beamline record for the flattened
     * names stored under the upper-cased name, which joins the beamline list.
     */
    method GenerateLatticeLine(latname: string, line: seq<LineItem>) returns (newblele: (string, Entry))
      modifies this
      ensures newblele == (Upper(latname), BeamlineEntry(FlattenLine(line)))
      ensures allElements == old(allElements)[Upper(latname) := newblele.1]
      ensures kwsBl == old(kwsBl) + [Upper(latname)] && kwsEle == old(kwsEle)
      ensures old(Valid()) ==> Valid()
    {
      var latticeline: seq<string> := [];
      for i := 0 to |line|
        invariant latticeline == FlattenLine(line[..i])
      {
        assert line[..i + 1][..i] == line[..i];
        match line[i]
        case Names(ns) =>
          latticeline := latticeline + ns;
        case Name(n) =>
          latticeline := latticeline + [n];
      }
      assert line[..|line|] == line;
      ghost var ns0, bls0 := allElements, kwsBl;
      newblele := (Upper(latname), BeamlineEntry(latticeline));
      allElements := allElements[newblele.0 := newblele.1];
      kwsBl := kwsBl + [Upper(latname)];
      if Canonical(ns0) && Resolvable(ns0) && BeamlineKeys(ns0, bls0) {
        NewLineKeepsValid(ns0, bls0, latname, latticeline);
      }
    }

    /** `getChargeElement()` */
    method GetChargeElement() returns (r: Option<string>)
      ensures r == ChargeElement(allElements, kwsEle)
    {
      for i := 0 to |kwsEle|
        invariant ChargeElement(allElements, kwsEle) == ChargeElement(allElements, kwsEle[i..])
      {
        var t := ElementType(allElements, kwsEle[i]);
        if t.None? {
          return None;
        }
        if t.value == "CHARGE" {
          return Some(kwsEle[i]);
        }
        assert kwsEle[i..][1..] == kwsEle[i + 1..];
      }
      return Some("");
    }

    /**
     * `formatElement(kw, format)`: the elegant statement of one element, its
     * parameters in dict order `ks`. `None` stands for the exception on a keyword
     * without a type and for the unbound result of any other format.
     */
    method FormatElement(kw: string, format: string, show: real -> string) returns (r: Option<string>, ghost ks: seq<string>)
      ensures Distinct(ks) && forall k :: k in ks <==> k in ElementConf(allElements, kw)
      ensures r.Some? <==> format == "elegant" && ElementType(allElements, kw).Some?
      ensures r.Some? ==> r.value == ElementLine(kw, ElementType(allElements, kw).value, Items(ElementConf(allElements, kw), ks, show))
    {
      var etype := ElementType(allElements, kw);
      var econf := ElementConf(allElements, kw);
      var econfStr := "";
      ks := [];
      var todo := econf.Keys;
      while todo != {}
        invariant todo <= econf.Keys
        invariant forall k :: k in ks <==> k in econf && k !in todo
        invariant Distinct(ks)
        invariant econfStr == Items(econf, ks, show)
        decreases |todo|
      {
        var k :| k in todo;
        assert (ks + [k])[..|ks|] == ks;
        econfStr := econfStr + Item(k, econf[k], show);
        ks := ks + [k];
        todo := todo - {k};
      }
      if etype.None? || format != "elegant" {
        return None, ks;
      }
      r := Some(ElementLine(kw, etype.value, econfStr));
    }

    /**
     * The element statements of `generateLatticeFile`, one `formatElement` per
     * name in `defs`; `kss` holds the dict order of each statement's parameters.
     */
    method ElementStatements(defs: seq<string>, show: real -> string) returns (r: Option<seq<string>>, ghost kss: seq<seq<string>>)
      ensures r.Some? <==> Writable(allElements, defs)
      ensures r.Some? ==> |r.value| == |defs| == |kss|
      ensures r.Some? ==> forall i :: 0 <= i < |defs| ==> Stated(allElements, defs[i], r.value[i], kss[i], show)
    {
      var lines: seq<string> := [];
      kss := [];
      for i := 0 to |defs|
        invariant |lines| == i && StatedAll(allElements, defs, lines, kss, show)
      {
        var rinsed := Rinse(defs[i]);
        if rinsed.None? {
          assert defs[i] in defs;
          return None, kss;
        }
        var text, ks := FormatElement(rinsed.value.name, "elegant", show);
        if text.None? {
          assert defs[i] in defs;
          return None, kss;
        }
        AllHoldSnoc(StatedIn(allElements, show), defs, lines, kss, text.value, ks);
        lines, kss := lines + [text.value], kss + [ks];
      }
      StatedWritable(allElements, defs, lines, kss, show);
      r := Some(lines);
    }

    /**
     * The element and beamline statements of `generateLatticeFile(bl)`: one per
     * distinct name of the element list in sorted order, then the line itself;
     * `kss` holds the dict order of each statement's parameters.
     */
    method GenerateLatticeFile(bl: string, show: real -> string, ghost rank: map<string, nat>) returns (r: Option<seq<string>>, ghost kss: seq<seq<string>>)
      requires Acyclic(allElements, kwsBl, rank)
      ensures var fe := FileElements(allElements, kwsEle, FullBeamline(allElements, kwsBl, rank, bl, true));
              r.Some? <==> fe.Some? && Writable(allElements, fe.value)
      ensures r.Some? ==>
                var els := FileElements(allElements, kwsEle, FullBeamline(allElements, kwsBl, rank, bl, true)).value;
                var defs := SortedSet(els);
                && |r.value| == |defs| + 1 && |kss| == |defs|
                && r.value[|defs|] == BeamlineText(bl, els)
                && forall i :: 0 <= i < |defs| ==> Stated(allElements, defs[i], r.value[i], kss[i], show)
    {
      var full := GetFullBeamline(bl, true, rank);
      kss := [];
      if !full.Expanded? || |full.names| == 0 {
        return None, kss;
      }
      var elelist := full.names;
      var t0 := ElementType(allElements, elelist[0]);
      if t0.None? {
        return None, kss;
      }
      if t0.value != "CHARGE" {
        var charge := GetChargeElement();
        if charge.None? {
          return None, kss;
        }
        elelist := [charge.value] + elelist;
      }
      assert FileElements(allElements, kwsEle, full) == Some(elelist);
      var defs := SortedSet(elelist);
      WritableSorted(allElements, elelist);
      var stmts;
      stmts, kss := ElementStatements(defs, show);
      if stmts.None? {
        return None, kss;
      }
      r := Some(stmts.value + [BeamlineText(bl, elelist)]);
    }
  }

  /** Writing the sorted distinct names needs exactly what writing the whole list needs. */
  lemma {:induction false} WritableSorted(ns: Namespace, els: seq<string>)
    ensures Writable(ns, SortedSet(els)) <==> Writable(ns, els)
  {
  }

  // ------------------------------------------------------------------ what the updates keep

  /** One more selected item: its update, unless the loop has stopped or the update fails. */
  lemma {:induction false} ApplyAllStep(ns: Namespace, sel: seq<Placed>, i: nat, prop: string, op: Op)
    requires i < |sel|
    ensures var (m, ok) := ApplyAll(ns, sel[..i], prop, op);
            ApplyAll(ns, sel[..i + 1], prop, op)
            == if !ok then (m, false)
               else match UpdateOne(m, sel[i].name, prop, op)
                 case None => (m, false)
                 case Some(m') => (m', true)
  {
    assert sel[..i + 1][..i] == sel[..i];
  }

  /** Once the loop has stopped, further selected items change nothing. */
  lemma {:induction false} ApplyAllStops(ns: Namespace, sel: seq<Placed>, i: nat, prop: string, op: Op)
    requires i <= |sel| && !ApplyAll(ns, sel[..i], prop, op).1
    ensures ApplyAll(ns, sel, prop, op) == ApplyAll(ns, sel[..i], prop, op)
    decreases |sel| - i
  {
    if i < |sel| {
      assert sel[..i + 1][..i] == sel[..i];
      ApplyAllStops(ns, sel, i + 1, prop, op);
    } else {
      assert sel[..i] == sel;
    }
  }

  /** A namespace that reads the same beamline references keeps a rank valid. */
  lemma {:induction false} AcyclicKept(ns: Namespace, m: Namespace, bls: seq<string>, rank: map<string, nat>)
    requires Acyclic(ns, bls, rank)
    requires forall kw :: BeamlineRefs(m, kw) == BeamlineRefs(ns, kw)
    ensures Acyclic(m, bls, rank)
  {
  }

  /** A namespace with the same keywords and types keeps the object valid. */
  lemma {:induction false} ValidKept(ns: Namespace, m: Namespace, bls: seq<string>)
    requires m.Keys == ns.Keys && forall kw :: ElementType(m, kw) == ElementType(ns, kw)
    ensures Canonical(ns) ==> Canonical(m)
    ensures Resolvable(ns) ==> Resolvable(m)
    ensures BeamlineKeys(ns, bls) ==> BeamlineKeys(m, bls)
  {
  }

  lemma {:induction false} BeamlineTypeCases()
    ensures Lower(Upper(BeamlineType)) == BeamlineType
  {
    assert Upper(BeamlineType) == "BEAMLINE";
  }

  /** An upper-cased name is never the prefix-list key. */
  lemma {:induction false} NotPrefixKey(s: string)
    ensures Upper(s) != PrefixKey
  {
    UpperHasNoLower(s, 'p');
    assert PrefixKey[1] == 'p';
  }

  /** Storing a new beamline record under an upper-cased name keeps the object valid. */
  lemma {:induction false} NewLineKeepsValid(ns: Namespace, bls: seq<string>, latname: string, names: seq<string>)
    requires Canonical(ns) && Resolvable(ns) && BeamlineKeys(ns, bls)
    ensures var m := ns[Upper(latname) := BeamlineEntry(names)];
            Canonical(m) && Resolvable(m) && BeamlineKeys(m, bls + [Upper(latname)])
  {
    var key := Upper(latname);
    var m := ns[key := BeamlineEntry(names)];
    UpperIdempotent(latname);
    NotPrefixKey(latname);
    BeamlineTypeCases();
    assert ElementType(m, key) == Some(Upper(BeamlineType));
    assert IsLineKey(m, key);
    forall k | k in ns && k != PrefixKey && k != key
      ensures ElementType(m, k) == ElementType(ns, k)
    {
      assert Upper(k) == k;
    }
  }

  // ------------------------------------------------------------------ properties of the queries

  /**
   * The order numbers of `orderLattice`: position `i` carries the name and type
   * of the extended line there; a type's first element is number one, and later
   * elements of the same type get strictly larger numbers.
   */
  lemma {:induction false} LatticeOrderNumbers(ns: Namespace, bls: seq<string>, rank: map<string, nat>, bl: string, i: nat, j: nat)
    requires Acyclic(ns, bls, rank) && LatticeOrder(ns, bls, rank, bl).Some?
    requires i < j < |LatticeOrder(ns, bls, rank, bl).value|
    ensures var ps := LatticeOrder(ns, bls, rank, bl).value;
            var names := FullBeamline(ns, bls, rank, bl, true).names;
            && ps[i].name == names[i] && Some(ps[i].etype) == ElementType(ns, names[i])
            && (ps[i].etype == ps[j].etype ==> 1 <= ps[i].order < ps[j].order)
  {
    var names := FullBeamline(ns, bls, rank, bl, true).names;
    var ts := TypesOf(ns, names).value;
    if ts[i] == ts[j] {
      OrdersIncrease(ts, i, j);
    }
  }

  /** The first element of a type in the extended line is number one. */
  lemma {:induction false} LatticeOrderFirst(ns: Namespace, bls: seq<string>, rank: map<string, nat>, bl: string, i: nat)
    requires Acyclic(ns, bls, rank) && LatticeOrder(ns, bls, rank, bl).Some?
    requires i < |LatticeOrder(ns, bls, rank, bl).value|
    requires forall j :: 0 <= j < i ==> LatticeOrder(ns, bls, rank, bl).value[j].etype != LatticeOrder(ns, bls, rank, bl).value[i].etype
    ensures LatticeOrder(ns, bls, rank, bl).value[i].order == 1
  {
    var names := FullBeamline(ns, bls, rank, bl, true).names;
    var ts := TypesOf(ns, names).value;
    assert ts[i] !in ts[..i] by {
      forall j | 0 <= j < i ensures ts[..i][j] != ts[i] { }
    }
    OrdersFirst(ts, i);
  }

  /** `irange = 'all'` selects every element of the type, in line order. */
  lemma {:induction false} ByOrderAll(ns: Namespace, bls: seq<string>, rank: map<string, nat>, bl: string, etype: string)
    requires Acyclic(ns, bls, rank) && Upper(bl) in bls && LatticeOrder(ns, bls, rank, bl).Some?
    ensures ElementsByOrder(ns, bls, rank, bl, etype, "all") == Some(OfType(LatticeOrder(ns, bls, rank, bl).value, Upper(etype)))
  {
    SelectAll(OfType(LatticeOrder(ns, bls, rank, bl).value, Upper(etype)));
  }

  /** An item that occurs is counted at least once. */
  lemma {:induction false} CountPresent(xs: seq<string>, x: string)
    requires x in xs
    ensures Count(xs, x) >= 1
  {
    var k := |xs| - 1;
    if xs[k] != x {
      assert x in xs[..k] by {
        var j :| 0 <= j < |xs| && xs[j] == x;
        assert xs[..k][j] == x;
      }
      CountPresent(xs[..k], x);
    }
  }

  /** A found name yields one triple per occurrence in the extended line, and there is at least one. */
  lemma {:induction false} ByNameCount(ns: Namespace, bls: seq<string>, rank: map<string, nat>, bl: string, name: string)
    requires Acyclic(ns, bls, rank) && ElementsByName(ns, bls, rank, bl, name).Found?
    ensures var names := FullBeamline(ns, bls, rank, bl, true).names;
            |ElementsByName(ns, bls, rank, bl, name).items| == Count(names, Lower(name)) >= 1
  {
    var names := FullBeamline(ns, bls, rank, bl, true).names;
    var ts := TypesOf(ns, names).value;
    NamedCount(names, ts, Orders(ts), Lower(name));
    CountPresent(names, Lower(name));
  }

  /** The default operation `'+0%'` leaves the namespace as it was. */
  lemma {:induction false} ManipulateDefaultNeutral(ns: Namespace, bls: seq<string>, rank: map<string, nat>, bl: string, etype: string, irange: string, prop: string)
    requires Acyclic(ns, bls, rank)
    ensures Manipulated(ns, bls, rank, bl, etype, irange, prop, "+0%").0 == ns
  {
    ParseZeroPercent();
    ZeroPercentNeutral();
    var sel := ElementsByOrder(ns, bls, rank, bl, etype, irange);
    ApplyAllNeutral(ns, if sel.Some? then sel.value else [], prop, Op('+', true, 0.0));
  }

  /** Elements outside the selection keep their records, and every keyword keeps its type. */
  lemma {:induction false} ManipulateFrame(ns: Namespace, bls: seq<string>, rank: map<string, nat>, bl: string, etype: string, irange: string, prop: string, opstr: string, k: string)
    requires Acyclic(ns, bls, rank) && k in ns
    requires var sel := ElementsByOrder(ns, bls, rank, bl, etype, irange);
             sel.Some? ==> forall p :: p in sel.value ==> Upper(p.name) != k
    ensures Manipulated(ns, bls, rank, bl, etype, irange, prop, opstr).0[k] == ns[k]
    ensures forall kw :: ElementType(Manipulated(ns, bls, rank, bl, etype, irange, prop, opstr).0, kw) == ElementType(ns, kw)
  {
    var sel := ElementsByOrder(ns, bls, rank, bl, etype, irange);
    if ParseOp(opstr).Some? {
      var items := if sel.Some? then sel.value else [];
      assert forall i :: 0 <= i < |items| ==> items[i] in items;
      ApplyAllFrame(ns, items, prop, ParseOp(opstr).value);
    }
  }

  /** The line a generated record holds reads back as the names it was built from. */
  lemma {:induction false} GeneratedLineReadsBack(ns: Namespace, latname: string, line: seq<LineItem>)
    requires Words(FlattenLine(line))
    ensures BeamlineRefs(ns[Upper(latname) := BeamlineEntry(FlattenLine(line))], latname) == Some(FlattenLine(line))
  {
    BeamlineEntryRefs(ns, latname, FlattenLine(line));
  }

  /** Every name of a list item in the `line` argument is in the flattened line. */
  lemma {:induction false} FlattenLineHas(line: seq<LineItem>, i: nat, n: string)
    requires i < |line| && (line[i] == Name(n) || (line[i].Names? && n in line[i].names))
    ensures n in FlattenLine(line)
  {
    var k := |line| - 1;
    if i < k {
      assert line[..k][i] == line[i];
      FlattenLineHas(line[..k], i, n);
    }
  }

  /**
   * A written file that does not start with a CHARGE element puts the first
   * element keyword of type CHARGE in front, if there is one.
   */
  lemma {:induction false} FileLeadsWithCharge(ns: Namespace, eles: seq<string>, expansion: Expansion)
    requires FileElements(ns, eles, expansion).Some?
    requires ElementType(ns, expansion.names[0]) != Some("CHARGE")
    ensures FileElements(ns, eles, expansion).value == [ChargeElement(ns, eles).value] + expansion.names
  {
  }
}
