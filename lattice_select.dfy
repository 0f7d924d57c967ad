/**
 * What the `Lattice` object computes from an expanded beamline: the per-type
 * appearance order (`orderLattice`), the selection by order (`getElementByOrder`)
 * or by name (`getElementByName`), and the property arithmetic of `manipulateLattice`.
 */
module LatticeSelect {
  import opened Wrappers
  import opened PyStr
  import opened PySeq
  import opened LatticeData

  // ------------------------------------------------------------------ orderLattice

  /** One `(name, type, order)` triple of `orderLattice`. */
  datatype Placed = Placed(name: string, etype: string, order: nat)

  /** Adding one more item to a prefix adds one to the count of that item only. */
  lemma {:induction false} CountStep(ts: seq<string>, i: nat)
    requires i < |ts|
    ensures forall t :: Count(ts[..i + 1], t) == Count(ts[..i], t) + (if ts[i] == t then 1 else 0)
  {
    assert ts[..i + 1][..i] == ts[..i];
  }

  /** Counts over longer prefixes are no smaller. */
  lemma {:induction false} CountMonotone(ts: seq<string>, a: nat, b: nat, t: string)
    requires a <= b <= |ts|
    ensures Count(ts[..a], t) <= Count(ts[..b], t)
    decreases b - a
  {
    if a < b {
      CountMonotone(ts, a, b - 1, t);
      CountStep(ts, b - 1);
    }
  }

  /** An item that does not occur has count zero. */
  lemma {:induction false} CountAbsent(xs: seq<string>, t: string)
    requires t !in xs
    ensures Count(xs, t) == 0
  {
    if |xs| > 0 {
      assert forall x :: x in xs[..|xs| - 1] ==> x in xs;
      CountAbsent(xs[..|xs| - 1], t);
    }
  }

  /** The order `orderLattice` assigns at position `i`: how many of `ts[0..i]` have the type `ts[i]`. */
  function Orders(ts: seq<string>): (os: seq<nat>)
    ensures |os| == |ts|
  {
    seq(|ts|, i requires 0 <= i < |ts| => Count(ts[..i + 1], ts[i]))
  }

  /** The first element of each type is number one. */
  lemma {:induction false} OrdersFirst(ts: seq<string>, i: nat)
    requires i < |ts| && ts[i] !in ts[..i]
    ensures Orders(ts)[i] == 1
  {
    CountStep(ts, i);
    CountAbsent(ts[..i], ts[i]);
  }

  /** Later elements of a type get strictly larger numbers, so every number is at least one. */
  lemma {:induction false} OrdersIncrease(ts: seq<string>, i: nat, j: nat)
    requires i < j < |ts| && ts[i] == ts[j]
    ensures 1 <= Orders(ts)[i] < Orders(ts)[j]
  {
    CountStep(ts, i);
    CountStep(ts, j);
    CountMonotone(ts, i + 1, j, ts[i]);
  }

  /** The counter loop of `orderLattice`, with `dict(zip(types, [0] * n))` as its counter. */
  method OrderCounts(types: seq<string>) returns (order: seq<nat>)
    ensures order == Orders(types)
  {
    order := seq(|types|, _ => 0);
    var counts: map<string, nat> := map t | t in types :: 0;
    for idx := 0 to |types|
      invariant |order| == |types|
      invariant forall t :: t in types ==> t in counts && counts[t] == Count(types[..idx], t)
      invariant forall k :: 0 <= k < idx ==> order[k] == Count(types[..k + 1], types[k])
    {
      var etype := types[idx];
      CountStep(types, idx);
      counts := counts[etype := counts[etype] + 1];
      order := order[idx := counts[etype]];
    }
  }

  /** `zip(names, types, orders)` */
  function Zip3(names: seq<string>, ts: seq<string>, os: seq<nat>): (r: seq<Placed>)
    requires |names| == |ts| == |os|
    ensures |r| == |names|
    ensures forall i :: 0 <= i < |r| ==> r[i] == Placed(names[i], ts[i], os[i])
  {
    seq(|names|, i requires 0 <= i < |names| => Placed(names[i], ts[i], os[i]))
  }

  /** `[getElementType(e) for e in names]`; `None` when a lookup raises. */
  function TypesOf(ns: Namespace, names: seq<string>): (r: Option<seq<string>>)
    ensures r.Some? <==> forall i :: 0 <= i < |names| ==> ElementType(ns, names[i]).Some?
    ensures r.Some? ==> |r.value| == |names| && forall i :: 0 <= i < |names| ==> r.value[i] == ElementType(ns, names[i]).value
  {
    if |names| == 0 then Some([])
    else
      var init := TypesOf(ns, names[..|names| - 1]);
      var last := ElementType(ns, names[|names| - 1]);
      if init.None? || last.None? then None else Some(init.value + [last.value])
  }

  /** The triples `orderLattice` builds for an expanded name list. */
  function Ordered(ns: Namespace, names: seq<string>): (r: Option<seq<Placed>>)
    ensures r.Some? <==> TypesOf(ns, names).Some?
    ensures r.Some? ==> |r.value| == |names|
  {
    match TypesOf(ns, names)
    case None => None
    case Some(ts) => Some(Zip3(names, ts, Orders(ts)))
  }

  // ------------------------------------------------------------------ getElementByOrder

  /** `[val for val in ps if val[1] == t]` */
  function OfType(ps: seq<Placed>, t: string): (r: seq<Placed>)
    ensures forall p :: p in r <==> p in ps && p.etype == t
  {
    if |ps| == 0 then []
    else OfType(ps[..|ps| - 1], t) + (if ps[|ps| - 1].etype == t then [ps[|ps| - 1]] else [])
  }

  /** `map(int, ps)`; `None` when some piece is not an integer. */
  function ParseInts(ps: seq<string>): (r: Option<seq<int>>)
    ensures r.Some? <==> forall i :: 0 <= i < |ps| ==> ParseInt(ps[i]).Some?
    ensures r.Some? ==> |r.value| == |ps| && forall i :: 0 <= i < |ps| ==> ParseInt(ps[i]) == Some(r.value[i])
  {
    MapAll(ParseInt, ps)
  }

  /** `xs[int(p)]`; `None` for the ValueError or the IndexError. */
  function PickOne<T>(xs: seq<T>, p: string): (r: Option<T>)
    ensures r.Some? <==> ParseInt(p).Some? && PyIndex(xs, ParseInt(p).value).Some?
    ensures r.Some? ==> r == PyIndex(xs, ParseInt(p).value)
  {
    match ParseInt(p)
    case None => None
    case Some(k) => PyIndex(xs, k)
  }

  /**
   * `[xs[int(p)] for p in ps]`: the items at the given indices, in the given order,
   * negative indices counting from the end; `None` when a piece is not an integer
   * or an index is out of range.
   */
  function PickAll<T>(xs: seq<T>, ps: seq<string>): (r: Option<seq<T>>)
    ensures r.Some? <==> forall i :: 0 <= i < |ps| ==> ParseInt(ps[i]).Some? && PyIndex(xs, ParseInt(ps[i]).value).Some?
    ensures r.Some? ==> |r.value| == |ps|
    ensures r.Some? ==> forall i :: 0 <= i < |ps| ==> Some(r.value[i]) == PyIndex(xs, ParseInt(ps[i]).value)
  {
    MapAll(p => PickOne(xs, p), ps)
  }

  /**
   * The selection of `getElementByOrder` by the text of `irange`: a comma list of
   * indices, a `start:stop[:step]` slice, `all`, or one index. `None` stands for the
   * `''` returned when anything raises.
   */
  function Select<T>(xs: seq<T>, irange: string): (r: Option<seq<T>>)
    ensures r.Some? ==> forall x :: x in r.value ==> x in xs
  {
    if ',' in irange then PickAll(xs, Split(irange, ','))
    else if ':' in irange then
      match ParseInts(Split(irange, ':'))
      case None => None
      case Some(idx) =>
        var idx3 := if |idx| == 2 then idx + [1] else idx;
        PySlice(xs, idx3[0], idx3[1], idx3[2])
    else if irange == "all" then Some(xs)
    else match ParseInt(irange)
      case None => None
      case Some(k) => match PyIndex(xs, k)
        case None => None
        case Some(x) => Some([x])
  }

  lemma {:induction false} AllHasNoSeparator()
    ensures ',' !in "all" && ':' !in "all"
  {
  }

  /** `irange = 'all'` selects every matching element. */
  lemma {:induction false} SelectAll<T>(xs: seq<T>)
    ensures Select(xs, "all") == Some(xs)
  {
    AllHasNoSeparator();
  }

  /** A single index selects the one element there, counting from the end when negative. */
  lemma {:induction false} SelectIndex<T>(xs: seq<T>, irange: string, k: int)
    requires ',' !in irange && ':' !in irange && irange != "all" && ParseInt(irange) == Some(k)
    ensures Select(xs, irange).Some? <==> -|xs| <= k < |xs|
    ensures 0 <= k < |xs| ==> Select(xs, irange) == Some([xs[k]])
    ensures -|xs| <= k < 0 ==> Select(xs, irange) == Some([xs[|xs| + k]])
  {
  }

  /** A comma list selects the listed indices in the listed order. */
  lemma {:induction false} SelectList<T>(xs: seq<T>, irange: string)
    requires ',' in irange
    ensures Select(xs, irange) == PickAll(xs, Split(irange, ','))
    ensures Select(xs, irange).Some? ==> |Select(xs, irange).value| == |Split(irange, ',')|
  {
  }

  /** `start:stop` with in-range bounds selects the contiguous run between them. */
  lemma {:induction false} SelectRange<T>(xs: seq<T>, irange: string, lo: string, hi: string, start: nat, stop: nat)
    requires ',' !in irange && Split(irange, ':') == [lo, hi]
    requires ParseInt(lo) == Some(start) && ParseInt(hi) == Some(stop)
    requires start <= stop <= |xs|
    ensures Select(xs, irange) == Some(xs[start..stop])
  {
    ParsePair(lo, hi, start, stop);
    assert ':' in irange;
    PySliceContiguous(xs, start, stop);
  }

  lemma {:induction false} ParsePair(lo: string, hi: string, start: int, stop: int)
    requires ParseInt(lo) == Some(start) && ParseInt(hi) == Some(stop)
    ensures ParseInts([lo, hi]) == Some([start, stop])
  {
    MapAllPair(ParseInt, lo, hi, start, stop);
  }

  /** A zero step is a ValueError, so nothing is selected. */
  lemma {:induction false} SelectZeroStep<T>(xs: seq<T>, irange: string, idx: seq<int>)
    requires ',' !in irange && ':' in irange
    requires ParseInts(Split(irange, ':')) == Some(idx) && |idx| >= 3 && idx[2] == 0
    ensures Select(xs, irange) == None
  {
  }

  // ------------------------------------------------------------------ getElementByName

  /** `[val for val in ps if val[0] == n]` */
  function Named(ps: seq<Placed>, n: string): (r: seq<Placed>)
    ensures forall p :: p in r <==> p in ps && p.name == n
  {
    if |ps| == 0 then []
    else Named(ps[..|ps| - 1], n) + (if ps[|ps| - 1].name == n then [ps[|ps| - 1]] else [])
  }

  /** Selecting by name yields one triple per occurrence of the name in the expanded line. */
  lemma {:induction false} NamedCount(names: seq<string>, ts: seq<string>, os: seq<nat>, n: string)
    requires |names| == |ts| == |os|
    ensures |Named(Zip3(names, ts, os), n)| == Count(names, n)
  {
    if |names| > 0 {
      var k := |names| - 1;
      assert Zip3(names, ts, os)[..k] == Zip3(names[..k], ts[..k], os[..k]);
      NamedCount(names[..k], ts[..k], os[..k], n);
    }
  }

  // ------------------------------------------------------------------ manipulateLattice

  /** An operation string read as its operator, whether it is a percentage, and its operand (a fraction for `%`). */
  datatype Op = Op(opr: char, percent: bool, operand: real)

  /**
   * `opstr[0]`, `float(opstr[1:].strip('%'))`, divided by 100 when `opstr` ends
   * with `%`. `None` stands for the IndexError of an empty string and the
   * ValueError of a malformed number.
   */
  function ParseOp(opstr: string): (r: Option<Op>)
    ensures r.Some? <==> |opstr| > 0 && Operand(opstr).Some?
    ensures r.Some? ==> r.value.opr == opstr[0] && r.value.percent == (opstr[|opstr| - 1] == '%')
  {
    if |opstr| == 0 then None
    else OpOf(opstr[0], opstr[|opstr| - 1] == '%', Operand(opstr))
  }

  /** The operation for operator `c` and a parsed operand, a fraction when `pct`. */
  function OpOf(c: char, pct: bool, v: Option<real>): (r: Option<Op>)
    ensures r.Some? <==> v.Some?
  {
    match v
    case None => None
    case Some(p) => Some(Op(c, pct, if pct then p / 100.0 else p))
  }

  /** `float(opstr[1:].strip('%'))`: the number after the operator. */
  function Operand(opstr: string): Option<real>
    requires |opstr| > 0
  {
    ParseFloat(StripChar(opstr[1..], '%'))
  }

  /**
   * The lambda `opsdict[opr]` applied to the old value: `a*(1+p)` and `a*(1-p)`
   * for percentages, `+ - * /` otherwise. `None` stands for the KeyError of an
   * unknown operator and the ZeroDivisionError of `/ 0`.
   */
  function ApplyOp(op: Op, a: real): Option<real>
  {
    if op.percent then
      if op.opr == '+' then Some(a * (1.0 + op.operand))
      else if op.opr == '-' then Some(a * (1.0 - op.operand))
      else None
    else if op.opr == '+' then Some(a + op.operand)
    else if op.opr == '-' then Some(a - op.operand)
    else if op.opr == '*' then Some(a * op.operand)
    else if op.opr == '/' then (if op.operand == 0.0 then None else Some(a / op.operand))
    else None
  }

  /** The operand of an operation string and whether it is a percentage. */
  lemma {:induction false} ParseOpOperand(opstr: string, p: real)
    requires |opstr| > 0 && Operand(opstr) == Some(p)
    ensures ParseOp(opstr) == Some(Op(opstr[0], opstr[|opstr| - 1] == '%', if opstr[|opstr| - 1] == '%' then p / 100.0 else p))
  {
    var c, pct := opstr[0], opstr[|opstr| - 1] == '%';
    assert ParseOp(opstr) == OpOf(c, pct, Operand(opstr));
    OpOfSome(c, pct, p);
  }

  lemma {:induction false} OpOfSome(c: char, pct: bool, p: real)
    ensures OpOf(c, pct, Some(p)) == Some(Op(c, pct, if pct then p / 100.0 else p))
  {
  }

  /** `±p%` reads as the fraction `p/100`. */
  lemma {:induction false} ParsePercent(opstr: string, p: real)
    requires |opstr| > 0 && opstr[|opstr| - 1] == '%' && Operand(opstr) == Some(p)
    ensures ParseOp(opstr) == Some(Op(opstr[0], true, p / 100.0))
  {
    ParseOpOperand(opstr, p);
  }

  /** `+p%` scales by `1 + p/100`, `-p%` by `1 - p/100`; any other operator before `%` is a KeyError. */
  lemma {:induction false} PercentOp(c: char, q: real, a: real)
    ensures c == '+' ==> ApplyOp(Op(c, true, q), a).Some? && ApplyOp(Op(c, true, q), a).value == a * (1.0 + q)
    ensures c == '-' ==> ApplyOp(Op(c, true, q), a).Some? && ApplyOp(Op(c, true, q), a).value == a * (1.0 - q)
    ensures c != '+' && c != '-' ==> ApplyOp(Op(c, true, q), a) == None
  {
  }

  /** Without `%`, `+n`, `-n`, `*n` and `/n` apply the operator, `/0` and other operators raise. */
  lemma {:induction false} ArithmeticMeaning(opstr: string, p: real, a: real)
    requires |opstr| > 0 && opstr[|opstr| - 1] != '%' && Operand(opstr) == Some(p)
    ensures ParseOp(opstr) == Some(Op(opstr[0], false, p))
    ensures opstr[0] == '+' ==> ApplyOp(Op(opstr[0], false, p), a).Some? && ApplyOp(Op(opstr[0], false, p), a).value == a + p
    ensures opstr[0] == '-' ==> ApplyOp(Op(opstr[0], false, p), a).Some? && ApplyOp(Op(opstr[0], false, p), a).value == a - p
    ensures opstr[0] == '*' ==> ApplyOp(Op(opstr[0], false, p), a).Some? && ApplyOp(Op(opstr[0], false, p), a).value == a * p
    ensures opstr[0] == '/' ==> (ApplyOp(Op(opstr[0], false, p), a).Some? <==> p != 0.0) && (p != 0.0 ==> ApplyOp(Op(opstr[0], false, p), a).value == a / p)
    ensures opstr[0] !in "+-*/" ==> ApplyOp(Op(opstr[0], false, p), a) == None
  {
    ParseOpOperand(opstr, p);
    ArithmeticOp(opstr[0], p, a);
  }

  lemma {:induction false} ArithmeticOp(c: char, p: real, a: real)
    ensures c == '+' ==> ApplyOp(Op(c, false, p), a).Some? && ApplyOp(Op(c, false, p), a).value == a + p
    ensures c == '-' ==> ApplyOp(Op(c, false, p), a).Some? && ApplyOp(Op(c, false, p), a).value == a - p
    ensures c == '*' ==> ApplyOp(Op(c, false, p), a).Some? && ApplyOp(Op(c, false, p), a).value == a * p
    ensures c == '/' ==> (ApplyOp(Op(c, false, p), a).Some? <==> p != 0.0) && (p != 0.0 ==> ApplyOp(Op(c, false, p), a).value == a / p)
    ensures c !in "+-*/" ==> ApplyOp(Op(c, false, p), a) == None
  {
  }

  /**
   * One iteration of the `manipulateLattice` loop: the named element's property is
   * replaced by the operation applied to it. `None` stands for the exception raised
   * when the element has no parameter dict or the property is not a number.
   */
  function UpdateOne(ns: Namespace, name: string, prop: string, op: Op): (r: Option<Namespace>)
    ensures r.Some? ==> r.value.Keys == ns.Keys
    ensures r.Some? ==> forall k :: k in ns && k != Upper(name) ==> r.value[k] == ns[k]
  {
    var key := Upper(name);
    var p := Lower(prop);
    if key !in ns || !ns[key].Element? || p !in ns[key].params || !ns[key].params[p].Num? then None
    else match ApplyOp(op, ns[key].params[p].r)
      case None => None
      case Some(v) => Some(ns[key := Element(ns[key].etype, ns[key].params[p := Num(v)])])
  }

  /**
   * The whole loop: each selected triple in turn. A failure stops the loop and keeps
   * the updates made so far; the flag says whether the loop ran to its end.
   */
  function ApplyAll(ns: Namespace, sel: seq<Placed>, prop: string, op: Op): (Namespace, bool)
  {
    if |sel| == 0 then (ns, true)
    else
      var (m, ok) := ApplyAll(ns, sel[..|sel| - 1], prop, op);
      if !ok then (m, false)
      else match UpdateOne(m, sel[|sel| - 1].name, prop, op)
        case None => (m, false)
        case Some(m') => (m', true)
  }

  /** The update touches only the named element, only that property, and keeps its type. */
  lemma {:induction false} UpdateOneFrame(ns: Namespace, name: string, prop: string, op: Op)
    requires UpdateOne(ns, name, prop, op).Some?
    ensures var m := UpdateOne(ns, name, prop, op).value;
            && m[Upper(name)].Element? && m[Upper(name)].etype == ns[Upper(name)].etype
            && m[Upper(name)].params.Keys == ns[Upper(name)].params.Keys
            && (forall k :: k in ns[Upper(name)].params && k != Lower(prop) ==> m[Upper(name)].params[k] == ns[Upper(name)].params[k])
            && m[Upper(name)].params[Lower(prop)] == Num(ApplyOp(op, ns[Upper(name)].params[Lower(prop)].r).value)
  {
  }

  /** Elements outside the selection keep their records; every key keeps its type and beamline references. */
  lemma {:induction false} ApplyAllFrame(ns: Namespace, sel: seq<Placed>, prop: string, op: Op)
    ensures var m := ApplyAll(ns, sel, prop, op).0;
            && m.Keys == ns.Keys
            && (forall k :: k in ns && (forall i :: 0 <= i < |sel| ==> Upper(sel[i].name) != k) ==> m[k] == ns[k])
            && (forall kw :: ElementType(m, kw) == ElementType(ns, kw))
            && (forall kw :: BeamlineRefs(m, kw) == BeamlineRefs(ns, kw))
  {
    if |sel| > 0 {
      var init := sel[..|sel| - 1];
      ApplyAllFrame(ns, init, prop, op);
      var (m, ok) := ApplyAll(ns, init, prop, op);
      if ok && UpdateOne(m, sel[|sel| - 1].name, prop, op).Some? {
        UpdateOneFrame(m, sel[|sel| - 1].name, prop, op);
        UpdateKeepsReading(m, sel[|sel| - 1].name, prop, op);
      }
    }
  }

  lemma {:induction false} UpdateKeepsReading(ns: Namespace, name: string, prop: string, op: Op)
    requires UpdateOne(ns, name, prop, op).Some?
    ensures var m := UpdateOne(ns, name, prop, op).value;
            && (forall kw :: ElementType(m, kw) == ElementType(ns, kw))
            && (forall kw :: BeamlineRefs(m, kw) == BeamlineRefs(ns, kw))
  {
    var m := UpdateOne(ns, name, prop, op).value;
    UpdateOneFrame(ns, name, prop, op);
    forall kw
      ensures BeamlineRefs(m, kw) == BeamlineRefs(ns, kw)
    {
      if Upper(kw) == Upper(name) && LatticeKey == Lower(prop) {
        assert !ns[Upper(name)].params[LatticeKey].Str?;
      }
    }
  }

  /** An operation that maps every number to itself. */
  ghost predicate Neutral(op: Op)
  {
    forall a :: ApplyOp(op, a) == Some(a)
  }

  /** `'+0%'` is neutral. */
  lemma {:induction false} ZeroPercentNeutral()
    ensures Neutral(Op('+', true, 0.0))
  {
  }

  /** A neutral operation changes nothing, however many elements it is applied to. */
  lemma {:induction false} ApplyAllNeutral(ns: Namespace, sel: seq<Placed>, prop: string, op: Op)
    requires Neutral(op)
    ensures ApplyAll(ns, sel, prop, op).0 == ns
  {
    if |sel| > 0 {
      ApplyAllNeutral(ns, sel[..|sel| - 1], prop, op);
      var name := sel[|sel| - 1].name;
      if ApplyAll(ns, sel[..|sel| - 1], prop, op).1 && UpdateOne(ns, name, prop, op).Some? {
        var key := Upper(name);
        assert ns[key].params[Lower(prop) := ns[key].params[Lower(prop)]] == ns[key].params;
        assert ns[key := Element(ns[key].etype, ns[key].params)] == ns;
      }
    }
  }

  /**
   * An element selected twice is updated twice: the operation compounds on the
   * one shared definition.
   */
  lemma {:induction false} ApplyTwiceCompounds(ns: Namespace, p: Placed, prop: string, c: real)
    requires Upper(p.name) in ns && ns[Upper(p.name)].Element?
    requires Lower(prop) in ns[Upper(p.name)].params && ns[Upper(p.name)].params[Lower(prop)].Num?
    ensures var m := ApplyAll(ns, [p, p], prop, Op('*', false, c));
            && m.1
            && m.0[Upper(p.name)].params[Lower(prop)] == Num(ns[Upper(p.name)].params[Lower(prop)].r * c * c)
  {
    var op := Op('*', false, c);
    var key, k := Upper(p.name), Lower(prop);
    var a := ns[key].params[k].r;
    assert [p, p][..1] == [p];
    assert [p][..0] == [];
    assert ApplyAll(ns, [], prop, op) == (ns, true);
    assert UpdateOne(ns, p.name, prop, op).Some?;
    var m1 := UpdateOne(ns, p.name, prop, op).value;
    UpdateOneFrame(ns, p.name, prop, op);
    assert ApplyAll(ns, [p], prop, op) == (m1, true);
    assert m1[key].params[k] == Num(a * c);
    assert UpdateOne(m1, p.name, prop, op).Some?;
    var m2 := UpdateOne(m1, p.name, prop, op).value;
    UpdateOneFrame(m1, p.name, prop, op);
    assert ApplyAll(ns, [p, p], prop, op) == (m2, true);
  }

  lemma {:induction false} OperandZeroText()
    ensures StripChar("+0%"[1..], '%') == "0"
  {
    assert "+0%"[1..] == "0%";
    assert "0%"[..1] == "0";
  }

  lemma {:induction false} ParseZero()
    ensures ParseFloat("0") == Some(0.0)
  {
    assert Strip("0") == "0" by { StripTrimmed("0"); }
    assert IndexOfChar(Lower("0"), 'e') == 1;
    assert IndexOfChar("0", '.') == 1;
    assert "0"[..1] == "0";
    assert "0"[..0] == "";
  }

  /** The default operation string `'+0%'` reads as the neutral `+ 0 %`. */
  lemma {:induction false} ParseZeroPercent()
    ensures ParseOp("+0%") == Some(Op('+', true, 0.0))
  {
    OperandZeroText();
    ParseZero();
  }

  // ------------------------------------------------------------------ generateLatticeFile

  /** Python's ordering of strings: lexicographic by code point, a proper prefix first. */
  predicate LexLess(a: string, b: string)
  {
    |b| > 0 && (|a| == 0 || a[0] < b[0] || (a[0] == b[0] && LexLess(a[1..], b[1..])))
  }

  lemma {:induction false} LexTrans(a: string, b: string, c: string)
    requires LexLess(a, b) && LexLess(b, c)
    ensures LexLess(a, c)
  {
    if |a| > 0 && a[0] == b[0] && b[0] == c[0] {
      LexTrans(a[1..], b[1..], c[1..]);
    }
  }

  lemma {:induction false} LexTotal(a: string, b: string)
    requires a != b
    ensures LexLess(a, b) || LexLess(b, a)
  {
    if |a| > 0 && |b| > 0 && a[0] == b[0] {
      assert a == [a[0]] + a[1..] && b == [b[0]] + b[1..];
      LexTotal(a[1..], b[1..]);
    }
  }

  predicate StrictlySorted(xs: seq<string>)
  {
    forall i, j :: 0 <= i < j < |xs| ==> LexLess(xs[i], xs[j])
  }

  /** `x` put into its place in a sorted list without repetitions. */
  function Insert(xs: seq<string>, x: string): (r: seq<string>)
    requires StrictlySorted(xs)
    ensures StrictlySorted(r)
    ensures forall y :: y in r <==> y in xs || y == x
  {
    if |xs| == 0 then [x]
    else if x == xs[0] then xs
    else if LexLess(x, xs[0]) then
      forall j | 0 < j < |xs|
        ensures LexLess(x, xs[j])
      {
        LexTrans(x, xs[0], xs[j]);
      }
      InsertFront(xs, x);
      [x] + xs
    else
      LexTotal(x, xs[0]);
      var rest := Insert(xs[1..], x);
      assert forall y :: y in rest ==> LexLess(xs[0], y);
      [xs[0]] + rest
  }

  /** Putting a smaller item in front keeps a list sorted when the item is below its head. */
  lemma {:induction false} InsertFront(xs: seq<string>, x: string)
    requires StrictlySorted(xs) && |xs| > 0 && LexLess(x, xs[0])
    requires forall j :: 0 < j < |xs| ==> LexLess(x, xs[j])
    ensures StrictlySorted([x] + xs)
  {
  }

  /** `sorted(set(xs))` */
  function SortedSet(xs: seq<string>): (r: seq<string>)
    ensures StrictlySorted(r)
    ensures forall y :: y in r <==> y in xs
  {
    if |xs| == 0 then [] else Insert(SortedSet(xs[..|xs| - 1]), xs[|xs| - 1])
  }

  /** The keywords before position `j` all have a type, and none of them is `CHARGE`. */
  predicate NoChargeBefore(ns: Namespace, eles: seq<string>, j: int)
    requires j <= |eles|
  {
    forall i :: 0 <= i < j ==> ElementType(ns, eles[i]).Some? && ElementType(ns, eles[i]) != Some("CHARGE")
  }

  /** `getChargeElement`: the first element keyword whose type is `CHARGE`, else `''`; `None` when a lookup raises. */
  function ChargeElement(ns: Namespace, eles: seq<string>): (r: Option<string>)
    ensures r.Some? && r.value != "" ==> r.value in eles && ElementType(ns, r.value) == Some("CHARGE")
    ensures r.Some? && r.value != "" ==> exists j :: 0 <= j < |eles| && eles[j] == r.value && NoChargeBefore(ns, eles, j)
    ensures r == Some("") && "" !in eles ==> NoChargeBefore(ns, eles, |eles|)
    ensures r.None? ==> exists j :: 0 <= j < |eles| && ElementType(ns, eles[j]).None? && NoChargeBefore(ns, eles, j)
  {
    if |eles| == 0 then Some("")
    else match ElementType(ns, eles[0])
      case None =>
        assert NoChargeBefore(ns, eles, 0);
        None
      case Some(t) =>
        if t == "CHARGE" then
          assert NoChargeBefore(ns, eles, 0);
          Some(eles[0])
        else
          var rest := ChargeElement(ns, eles[1..]);
          NoChargeShift(ns, eles);
          rest
  }

  /** A charge-free prefix of the tail, behind a typed non-`CHARGE` head, is one position longer in the whole list. */
  lemma {:induction false} NoChargeShift(ns: Namespace, eles: seq<string>)
    requires |eles| > 0 && ElementType(ns, eles[0]).Some? && ElementType(ns, eles[0]) != Some("CHARGE")
    ensures forall j :: 0 <= j <= |eles| - 1 && NoChargeBefore(ns, eles[1..], j) ==> NoChargeBefore(ns, eles, j + 1)
  {
    forall j | 0 <= j <= |eles| - 1 && NoChargeBefore(ns, eles[1..], j) ensures NoChargeBefore(ns, eles, j + 1) {
      forall i | 0 <= i < j + 1 ensures ElementType(ns, eles[i]).Some? && ElementType(ns, eles[i]) != Some("CHARGE") {
        if i > 0 {
          assert eles[i] == eles[1..][i - 1];
        }
      }
    }
  }
}
