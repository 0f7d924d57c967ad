/**
 * Beamline expansion: the references of a beamline record spliced recursively,
 * with `N*NAME` repetition when extending (`Lattice.rinseElement`,
 * `Lattice.getFullBeamline`).
 */
module LatticeExpand {
  import opened Wrappers
  import opened PyStr
  import opened PySeq
  import opened LatticeData

  // ------------------------------------------------------------------ rinseElement

  /** The `{'num': n, 'name': name}` dict `rinseElement` returns. */
  datatype Rinsed = Rinsed(num: nat, name: string)

  /** `[x.isdigit() for x in ts].index(digits)`, or `|ts|` when there is no such token. */
  function FirstIndex(ts: seq<string>, digits: bool): (k: nat)
    ensures k <= |ts|
    ensures forall i :: 0 <= i < k ==> IsDigits(ts[i]) != digits
    ensures k < |ts| ==> IsDigits(ts[k]) == digits
  {
    if |ts| == 0 || IsDigits(ts[0]) == digits then 0 else 1 + FirstIndex(ts[1..], digits)
  }

  /**
   * `rinseElement`: a reference with `*` has its blanks removed and is cut at every `*`;
   * the first all-digit piece is the count and the first other piece the name.
   * A reference without `*` is one copy of itself. `None` stands for the ValueError
   * of `list.index` when either kind of piece is missing.
   */
  function Rinse(ele: string): (r: Option<Rinsed>)
    ensures '*' !in ele ==> r == Some(Rinsed(1, ele))
    ensures '*' in ele && r.Some? ==> '*' !in r.value.name && !IsDigits(r.value.name)
  {
    if '*' !in ele then Some(Rinsed(1, ele))
    else
      var ts := Split(RemoveWs(ele), '*');
      var i := FirstIndex(ts, true);
      var j := FirstIndex(ts, false);
      if i == |ts| || j == |ts| then None
      else Some(Rinsed(DigitsValue(ts[i]), ts[j]))
  }

  /** The pieces of `n*name` and of `name*n`. */
  lemma {:induction false} RinsePieces(n: string, name: string)
    requires NoSpace(n) && NoSpace(name) && '*' !in n && '*' !in name
    ensures Split(RemoveWs(n + "*" + name), '*') == [n, name]
  {
    var s := n + "*" + name;
    assert NoSpace(s) by {
      forall i | 0 <= i < |s| ensures !IsSpace(s[i]) {
        if i < |n| { assert s[i] == n[i]; }
        else if i > |n| { assert s[i] == name[i - |n| - 1]; }
      }
    }
    RemoveWsNoSpace(s);
    assert s == n + ['*'] + name;
    SplitFirst(n, '*', name);
    SplitNone(name, '*');
  }

  /** Where a two-piece split keeps its count and its name. */
  lemma {:induction false} FirstIndexPair(a: string, b: string)
    requires IsDigits(a) != IsDigits(b)
    ensures FirstIndex([a, b], IsDigits(a)) == 0
    ensures FirstIndex([a, b], IsDigits(b)) == 1
  {
    assert [a, b][1..] == [b];
  }

  /** `rinseElement('N*NAME')` is `N` copies of `NAME`. */
  lemma {:induction false} RinseCountFirst(n: string, name: string)
    requires IsDigits(n) && !IsDigits(name) && NoSpace(name) && '*' !in name
    ensures Rinse(n + "*" + name) == Some(Rinsed(DigitsValue(n), name))
  {
    var s := n + "*" + name;
    assert s[|n|] == '*';
    RinsePieces(n, name);
    FirstIndexPair(n, name);
    var ts := Split(RemoveWs(s), '*');
    assert FirstIndex(ts, true) == 0 && FirstIndex(ts, false) == 1;
  }

  /** `rinseElement('NAME*N')` is `N` copies of `NAME` as well. */
  lemma {:induction false} RinseCountLast(name: string, n: string)
    requires IsDigits(n) && !IsDigits(name) && NoSpace(name) && '*' !in name
    ensures Rinse(name + "*" + n) == Some(Rinsed(DigitsValue(n), name))
  {
    var s := name + "*" + n;
    assert s[|name|] == '*';
    RinsePieces(name, n);
    FirstIndexPair(name, n);
    var ts := Split(RemoveWs(s), '*');
    assert FirstIndex(ts, true) == 1 && FirstIndex(ts, false) == 0;
  }

  lemma {:induction false} DigitsValue18()
    ensures IsDigits("18") && DigitsValue("18") == 18
  {
    assert "18"[..1] == "1";
    assert "1"[..0] == "";
  }

  lemma {:induction false} AipName()
    ensures !IsDigits("aip") && NoSpace("aip") && '*' !in "aip"
  {
    assert !IsDigit("aip"[0]);
  }

  lemma {:induction false} ExampleText()
    ensures "18" + "*" + "aip" == "18*aip"
  {
  }

  /** The repetition `18*aip` of the lattice tests: eighteen copies of `aip`. */
  lemma {:induction false} RinseExample()
    ensures Rinse("18*aip") == Some(Rinsed(18, "aip"))
  {
    DigitsValue18();
    AipName();
    RinseCountFirst("18", "aip");
    ExampleText();
  }

  // ------------------------------------------------------------------ acyclicity

  /** A reference lies below `bound` when the beamline it names, bare or rinsed, ranks lower. */
  predicate RefBelow(bls: seq<string>, rank: map<string, nat>, r: string, bound: nat)
    requires forall b :: b in bls ==> b in rank
  {
    && (Upper(r) in bls ==> rank[Upper(r)] < bound)
    && (Rinse(r).Some? && Upper(Rinse(r).value.name) in bls ==> rank[Upper(Rinse(r).value.name)] < bound)
  }

  predicate RefsBelow(bls: seq<string>, rank: map<string, nat>, refs: seq<string>, bound: nat)
    requires forall b :: b in bls ==> b in rank
  {
    forall i :: 0 <= i < |refs| ==> RefBelow(bls, rank, refs[i], bound)
  }

  /**
   * `rank` orders the beamlines so that every beamline references only lower-ranked
   * ones. `getFullBeamline` has no guard against a line that contains itself, so
   * every expansion is asked for under this condition.
   */
  predicate Acyclic(ns: Namespace, bls: seq<string>, rank: map<string, nat>)
  {
    && (forall b :: b in bls ==> b in rank)
    && (forall b :: b in bls && BeamlineRefs(ns, b).Some? ==>
          RefsBelow(bls, rank, BeamlineRefs(ns, b).value, rank[b]))
  }

  /** The references read for a beamline keyword lie below its rank. */
  lemma {:induction false} AcyclicRefs(ns: Namespace, bls: seq<string>, rank: map<string, nat>, kw: string)
    requires Acyclic(ns, bls, rank) && Upper(kw) in bls && BeamlineRefs(ns, kw).Some?
    ensures RefsBelow(bls, rank, BeamlineRefs(ns, kw).value, rank[Upper(kw)])
  {
    UpperIdempotent(kw);
    assert BeamlineRefs(ns, Upper(kw)) == BeamlineRefs(ns, kw);
  }

  // ------------------------------------------------------------------ getFullBeamline

  /**
   * The outcome of `getFullBeamline`: the expanded names, `None` for a keyword
   * that is not a beamline (the caught AssertionError), or an exception raised
   * further down.
   */
  datatype Expansion = Expanded(names: seq<string>) | NotBeamline | Raises

  /** Appending the expansion of one more reference; the first failure wins. */
  function Then(a: Expansion, b: Expansion): (r: Expansion)
    ensures r.Expanded? <==> a.Expanded? && b.Expanded?
    ensures r.Expanded? ==> r.names == a.names + b.names
  {
    if !a.Expanded? then a else if !b.Expanded? then b else Expanded(a.names + b.names)
  }

  lemma {:induction false} ThenAssoc(a: Expansion, b: Expansion, c: Expansion)
    ensures Then(Then(a, b), c) == Then(a, Then(b, c))
  {
    if a.Expanded? && b.Expanded? && c.Expanded? {
      assert (a.names + b.names) + c.names == a.names + (b.names + c.names);
    }
  }

  /** `getFullBeamline(kw, extend)`. */
  function FullBeamline(ns: Namespace, bls: seq<string>, rank: map<string, nat>, kw: string, extend: bool): (r: Expansion)
    requires Acyclic(ns, bls, rank)
    ensures r.NotBeamline? <==> Upper(kw) !in bls
    decreases if Upper(kw) in bls then rank[Upper(kw)] else 0, 1, 0
  {
    if Upper(kw) !in bls then NotBeamline
    else match BeamlineRefs(ns, kw)
      case None => Raises
      case Some(refs) =>
        AcyclicRefs(ns, bls, rank, kw);
        ExpandRefs(ns, bls, rank, refs, extend, rank[Upper(kw)])
  }

  /** The loop of `getFullBeamline` over the references, in order. */
  function ExpandRefs(ns: Namespace, bls: seq<string>, rank: map<string, nat>, refs: seq<string>, extend: bool, bound: nat): (r: Expansion)
    requires Acyclic(ns, bls, rank) && RefsBelow(bls, rank, refs, bound)
    ensures !r.NotBeamline?
    decreases bound, 0, |refs|
  {
    if |refs| == 0 then Expanded([])
    else
      Then(ExpandRefs(ns, bls, rank, refs[..|refs| - 1], extend, bound),
           Piece(ns, bls, rank, refs[|refs| - 1], extend, bound))
  }

  /**
   * What one reference contributes. Without `extend`, a beamline name is expanded
   * and any other token is kept as it is. With `extend`, the rinsed name is
   * expanded (beamline) or kept (element), and the result repeated `num` times.
   */
  function Piece(ns: Namespace, bls: seq<string>, rank: map<string, nat>, ref: string, extend: bool, bound: nat): (r: Expansion)
    requires Acyclic(ns, bls, rank) && RefBelow(bls, rank, ref, bound)
    ensures !r.NotBeamline?
    decreases bound, 0, 0
  {
    if !extend then
      if Upper(ref) in bls then FullBeamline(ns, bls, rank, ref, false) else Expanded([ref])
    else match Rinse(ref)
      case None => Raises
      case Some(x) =>
        if Upper(x.name) in bls then
          var sub := FullBeamline(ns, bls, rank, x.name, true);
          if sub.Expanded? then Expanded(Repeat(sub.names, x.num)) else sub
        else Expanded(Repeat([x.name], x.num))
  }

  /** Expanding a concatenation of reference lists concatenates the expansions. */
  lemma {:induction false} ExpandRefsConcat(ns: Namespace, bls: seq<string>, rank: map<string, nat>, a: seq<string>, b: seq<string>, extend: bool, bound: nat)
    requires Acyclic(ns, bls, rank) && RefsBelow(bls, rank, a + b, bound)
    ensures RefsBelow(bls, rank, a, bound) && RefsBelow(bls, rank, b, bound)
    ensures ExpandRefs(ns, bls, rank, a + b, extend, bound)
            == Then(ExpandRefs(ns, bls, rank, a, extend, bound), ExpandRefs(ns, bls, rank, b, extend, bound))
    decreases |b|
  {
    assert forall i :: 0 <= i < |a| ==> (a + b)[i] == a[i];
    assert forall i :: 0 <= i < |b| ==> (a + b)[|a| + i] == b[i];
    if |b| == 0 {
      assert a + b == a;
    } else {
      var b' := b[..|b| - 1];
      assert (a + b)[..|a + b| - 1] == a + b';
      assert (a + b)[|a + b| - 1] == b[|b| - 1];
      ExpandRefsConcat(ns, bls, rank, a, b', extend, bound);
      ThenAssoc(ExpandRefs(ns, bls, rank, a, extend, bound),
                ExpandRefs(ns, bls, rank, b', extend, bound),
                Piece(ns, bls, rank, b[|b| - 1], extend, bound));
    }
  }

  /** Once a prefix of the references fails, the whole expansion fails. */
  lemma {:induction false} ExpandRefsPrefixRaises(ns: Namespace, bls: seq<string>, rank: map<string, nat>, refs: seq<string>, i: nat, extend: bool, bound: nat)
    requires Acyclic(ns, bls, rank) && RefsBelow(bls, rank, refs, bound) && i <= |refs|
    requires RefsBelow(bls, rank, refs[..i], bound)
    requires ExpandRefs(ns, bls, rank, refs[..i], extend, bound) == Raises
    ensures ExpandRefs(ns, bls, rank, refs, extend, bound) == Raises
  {
    TakeDrop(refs, i);
    ExpandRefsConcat(ns, bls, rank, refs[..i], refs[i..], extend, bound);
  }

  /** Every name of an expansion is a leaf: no beamline, and no `*` repetition when extending. */
  predicate Leaves(bls: seq<string>, names: seq<string>, extend: bool)
  {
    forall i :: 0 <= i < |names| ==> Upper(names[i]) !in bls && (extend ==> '*' !in names[i])
  }

  lemma {:induction false} LeavesConcat(bls: seq<string>, a: seq<string>, b: seq<string>, extend: bool)
    requires Leaves(bls, a, extend) && Leaves(bls, b, extend)
    ensures Leaves(bls, a + b, extend)
  {
    assert forall i :: 0 <= i < |a| ==> (a + b)[i] == a[i];
    assert forall i :: |a| <= i < |a + b| ==> (a + b)[i] == b[i - |a|];
  }

  lemma {:induction false} LeavesRepeat(bls: seq<string>, xs: seq<string>, n: nat, extend: bool)
    requires Leaves(bls, xs, extend)
    ensures Leaves(bls, Repeat(xs, n), extend)
  {
    if n > 0 {
      LeavesRepeat(bls, xs, n - 1, extend);
      LeavesConcat(bls, xs, Repeat(xs, n - 1), extend);
    }
  }

  /**
   * A full expansion holds no beamline names: every beamline reference has been
   * spliced in. When extending, no name carries a `N*` repetition either.
   */
  lemma {:induction false} FullBeamlineLeaves(ns: Namespace, bls: seq<string>, rank: map<string, nat>, kw: string, extend: bool)
    requires Acyclic(ns, bls, rank)
    ensures FullBeamline(ns, bls, rank, kw, extend).Expanded? ==> Leaves(bls, FullBeamline(ns, bls, rank, kw, extend).names, extend)
    decreases if Upper(kw) in bls then rank[Upper(kw)] else 0, 1, 0
  {
    if Upper(kw) in bls && BeamlineRefs(ns, kw).Some? {
      AcyclicRefs(ns, bls, rank, kw);
      ExpandRefsLeaves(ns, bls, rank, BeamlineRefs(ns, kw).value, extend, rank[Upper(kw)]);
    }
  }

  lemma {:induction false} ExpandRefsLeaves(ns: Namespace, bls: seq<string>, rank: map<string, nat>, refs: seq<string>, extend: bool, bound: nat)
    requires Acyclic(ns, bls, rank) && RefsBelow(bls, rank, refs, bound)
    ensures ExpandRefs(ns, bls, rank, refs, extend, bound).Expanded? ==> Leaves(bls, ExpandRefs(ns, bls, rank, refs, extend, bound).names, extend)
    decreases bound, 0, |refs|
  {
    if |refs| > 0 {
      var init := refs[..|refs| - 1];
      var ref := refs[|refs| - 1];
      ExpandRefsLeaves(ns, bls, rank, init, extend, bound);
      var p := Piece(ns, bls, rank, ref, extend, bound);
      if p.Expanded? {
        if !extend {
          if Upper(ref) in bls {
            FullBeamlineLeaves(ns, bls, rank, ref, false);
          }
        } else {
          var x := Rinse(ref).value;
          if Upper(x.name) in bls {
            FullBeamlineLeaves(ns, bls, rank, x.name, true);
            LeavesRepeat(bls, FullBeamline(ns, bls, rank, x.name, true).names, x.num, true);
          } else {
            LeavesRepeat(bls, [x.name], x.num, true);
          }
        }
        if ExpandRefs(ns, bls, rank, init, extend, bound).Expanded? {
          LeavesConcat(bls, ExpandRefs(ns, bls, rank, init, extend, bound).names, p.names, extend);
        }
      }
    }
  }

  /** No reference of any beamline uses the `N*NAME` repetition. */
  predicate NoRepetition(ns: Namespace, bls: seq<string>)
  {
    forall b :: b in bls && BeamlineRefs(ns, b).Some? ==>
      forall i :: 0 <= i < |BeamlineRefs(ns, b).value| ==> '*' !in BeamlineRefs(ns, b).value[i]
  }

  /** Without any `N*NAME` reference, extending changes nothing. */
  lemma {:induction false} ExtendWithoutRepetition(ns: Namespace, bls: seq<string>, rank: map<string, nat>, kw: string)
    requires Acyclic(ns, bls, rank) && NoRepetition(ns, bls)
    ensures FullBeamline(ns, bls, rank, kw, true) == FullBeamline(ns, bls, rank, kw, false)
    decreases if Upper(kw) in bls then rank[Upper(kw)] else 0, 1, 0
  {
    if Upper(kw) in bls && BeamlineRefs(ns, kw).Some? {
      AcyclicRefs(ns, bls, rank, kw);
      UpperIdempotent(kw);
      assert BeamlineRefs(ns, Upper(kw)) == BeamlineRefs(ns, kw);
      ExpandRefsWithoutRepetition(ns, bls, rank, BeamlineRefs(ns, kw).value, rank[Upper(kw)]);
    }
  }

  lemma {:induction false} ExpandRefsWithoutRepetition(ns: Namespace, bls: seq<string>, rank: map<string, nat>, refs: seq<string>, bound: nat)
    requires Acyclic(ns, bls, rank) && NoRepetition(ns, bls) && RefsBelow(bls, rank, refs, bound)
    requires forall i :: 0 <= i < |refs| ==> '*' !in refs[i]
    ensures ExpandRefs(ns, bls, rank, refs, true, bound) == ExpandRefs(ns, bls, rank, refs, false, bound)
    decreases bound, 0, |refs|
  {
    if |refs| > 0 {
      var ref := refs[|refs| - 1];
      ExpandRefsWithoutRepetition(ns, bls, rank, refs[..|refs| - 1], bound);
      if Upper(ref) in bls {
        ExtendWithoutRepetition(ns, bls, rank, ref);
        var sub := FullBeamline(ns, bls, rank, ref, true);
        if sub.Expanded? {
          RepeatOnce(sub.names);
        }
      } else {
        RepeatOnce([ref]);
      }
    }
  }

  /**
   * The length of an extended expansion: each reference contributes its count
   * times the length of what it names (one for an element).
   */
  function ExtendedLength(ns: Namespace, bls: seq<string>, rank: map<string, nat>, refs: seq<string>, bound: nat): nat
    requires Acyclic(ns, bls, rank) && RefsBelow(bls, rank, refs, bound)
    decreases |refs|
  {
    if |refs| == 0 then 0
    else
      assert RefBelow(bls, rank, refs[|refs| - 1], bound);
      ExtendedLength(ns, bls, rank, refs[..|refs| - 1], bound) + RefWeight(ns, bls, rank, refs[|refs| - 1], bound)
  }

  /** Count times the length of what the rinsed name stands for; nothing for a failing reference. */
  function RefWeight(ns: Namespace, bls: seq<string>, rank: map<string, nat>, ref: string, bound: nat): nat
    requires Acyclic(ns, bls, rank) && RefBelow(bls, rank, ref, bound)
  {
    match Rinse(ref)
    case None => 0
    case Some(x) =>
      if Upper(x.name) in bls then
        var sub := FullBeamline(ns, bls, rank, x.name, true);
        x.num * (if sub.Expanded? then |sub.names| else 0)
      else x.num
  }

  /** A successful extended expansion has length `sum(count * len(expansion))` over its references. */
  lemma {:induction false} ExpandRefsLength(ns: Namespace, bls: seq<string>, rank: map<string, nat>, refs: seq<string>, bound: nat)
    requires Acyclic(ns, bls, rank) && RefsBelow(bls, rank, refs, bound)
    ensures ExpandRefs(ns, bls, rank, refs, true, bound).Expanded? ==>
              |ExpandRefs(ns, bls, rank, refs, true, bound).names| == ExtendedLength(ns, bls, rank, refs, bound)
  {
    if |refs| > 0 {
      ExpandRefsLength(ns, bls, rank, refs[..|refs| - 1], bound);
      var ref := refs[|refs| - 1];
      var p := Piece(ns, bls, rank, ref, true, bound);
      if p.Expanded? {
        var x := Rinse(ref).value;
        if Upper(x.name) in bls {
          RepeatLength(FullBeamline(ns, bls, rank, x.name, true).names, x.num);
        } else {
          RepeatLength([x.name], x.num);
        }
      }
    }
  }
}
