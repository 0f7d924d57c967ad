/**
 * `MagBlock`, the element object of the modelling side: per-element
 * configuration dictionaries (`simu`, `ctrl`, `misc`) with key lists kept in
 * step with them, a copy of the shared common information, a drawing style
 * that can only be re-valued, and a position along the beamline.  The
 * class-level state every element shares (`objcnt`, `comminfo` and the global
 * style table) is the `BlockClass` object.
 */
module MagBlocks {
  import opened Wrappers
  import opened PyStr
  import opened PySeq
  import opened LatticeData

  type Dict = map<string, Value>

  /** The configuration argument: `None`, a `"k1=v1, k2=v2"` text or a dict. */
  datatype Conf = NoConf | Text(s: string) | Fields(d: Dict)

  /** The element classes; each fixes the type name and where its style comes from. */
  datatype Kind =
    | Charge | Center | Csrcsben | Csrdrift | Drift | Kicker | Lscdrift
    | Mark | Moni | Quad | Rfcw | Rfdf | Wake | Watch | BeamlineBlock

  // ------------------------------------------------------------------ str2dict

  /**
   * The tokens `str2dict` pairs up: without `lattice` (in any case) the text is
   * split at every `,` and `=`, with it only at `=`.
   */
  function ConfTokens(istr: string): (r: seq<string>)
    ensures forall i :: 0 <= i < |r| ==> '=' !in r[i]
  {
    if !Contains(Lower(istr), "lattice") then Split(ReplaceChar(istr, ',', '='), '=')
    else Split(istr, '=')
  }

  /** `dict(zip(keys, values))` over the even and odd tokens, both stripped. */
  function ConfText(istr: string): Dict
  {
    var ps := Pairs(ConfTokens(istr));
    StrippedPairs(ps)
  }

  /** Every pair stripped, each value a text, collected by `dict`. */
  function StrippedPairs(ps: seq<(string, string)>): Dict
  {
    DictOf(seq(|ps|, i requires 0 <= i < |ps| => (Strip(ps[i].0), Str(Strip(ps[i].1)))))
  }

  /** The dict a configuration argument stands for. */
  function ConfOf(conf: Conf): Dict
  {
    match conf
    case NoConf => map[]
    case Text(s) => ConfText(s)
    case Fields(d) => d
  }

  /** A key or value `str2dict` reads back as it is. */
  predicate Plain(s: string)
  {
    Trimmed(s) && ',' !in s && '=' !in s
  }

  /** Turning the commas of `KeyValueText` into `=` gives the interleaved keys and values joined by `=`. */
  lemma {:induction false} ConfStringEquals(ps: seq<(string, string)>)
    requires |ps| >= 1
    requires forall i :: 0 <= i < |ps| ==> Plain(ps[i].0) && Plain(ps[i].1)
    ensures ReplaceChar(KeyValueText(ps), ',', '=') == Join("=", Interleaved(ps))
  {
    var head := ps[0].0 + "=" + ps[0].1;
    ReplaceCharAbsent(head, ',', '=');
    if |ps| == 1 {
      assert KeyValueText(ps) == head;
      assert Interleaved(ps) == [ps[0].0, ps[0].1];
    } else {
      var rest := ps[1..];
      KeyValueTextCons(ps);
      ConfStringEquals(rest);
      ReplaceCharConcat(head + ",", KeyValueText(rest), ',', '=');
      ReplaceCharConcat(head, ",", ',', '=');
      InterleavedCons("=", ps);
    }
  }

  /**
   * `str2dict` reads a `k1=v1,k2=v2,...` text back into its pairs, later keys
   * overriding earlier ones as in `dict`, whenever no key or value has a blank
   * at an end or a separator, and the text does not mention `lattice`.
   */
  lemma {:induction false} ConfTextReadsBack(ps: seq<(string, string)>)
    requires |ps| >= 1
    requires forall i :: 0 <= i < |ps| ==> Plain(ps[i].0) && Plain(ps[i].1)
    requires !Contains(Lower(KeyValueText(ps)), "lattice")
    ensures ConfText(KeyValueText(ps)) == DictOf(seq(|ps|, i requires 0 <= i < |ps| => (ps[i].0, Str(ps[i].1))))
  {
    ConfTokensOfConfString(ps);
    PairsInterleaved(ps);
    StrippedPlainPairs(ps);
  }

  /** The tokens of a `KeyValueText` are the keys and values, interleaved. */
  lemma {:induction false} ConfTokensOfConfString(ps: seq<(string, string)>)
    requires |ps| >= 1
    requires forall i :: 0 <= i < |ps| ==> Plain(ps[i].0) && Plain(ps[i].1)
    requires !Contains(Lower(KeyValueText(ps)), "lattice")
    ensures ConfTokens(KeyValueText(ps)) == Interleaved(ps)
  {
    var xs := Interleaved(ps);
    ConfStringEquals(ps);
    forall j | 0 <= j < |xs| ensures '=' !in xs[j] {
      assert Plain(ps[j / 2].0) && Plain(ps[j / 2].1);
    }
    SplitJoin(xs, '=');
  }

  /** Stripping pairs that are already trimmed changes nothing. */
  lemma {:induction false} StrippedPlainPairs(ps: seq<(string, string)>)
    requires forall i :: 0 <= i < |ps| ==> Plain(ps[i].0) && Plain(ps[i].1)
    ensures StrippedPairs(ps) == DictOf(seq(|ps|, i requires 0 <= i < |ps| => (ps[i].0, Str(ps[i].1))))
  {
    var a := seq(|ps|, i requires 0 <= i < |ps| => (Strip(ps[i].0), Str(Strip(ps[i].1))));
    var b := seq(|ps|, i requires 0 <= i < |ps| => (ps[i].0, Str(ps[i].1)));
    forall i | 0 <= i < |ps| ensures a[i] == b[i] {
      StripTrimmed(ps[i].0);
      StripTrimmed(ps[i].1);
    }
    assert a == b;
  }

  lemma {:induction false} LowerPrefix(a: string, b: string)
    ensures Lower(a + b)[..|a|] == Lower(a)
  {
  }

  /** A text that starts with `lattice` mentions it. */
  lemma {:induction false} ContainsLattice(v: string)
    ensures Contains(Lower("lattice = " + v), "lattice")
  {
    var s := Lower("lattice = " + v);
    LowerPrefix("lattice", " = " + v);
    assert "lattice = " + v == "lattice" + (" = " + v);
    assert Lower("lattice") == "lattice";
    assert At(s, 0, "lattice");
  }

  /**
   * With `lattice` in the text only `=` splits it, so the commas between the
   * references survive: `"lattice = (a, b)"` gives `{"lattice": "(a, b)"}`.
   */
  lemma {:induction false} LatticeConfText(v: string)
    requires '=' !in v
    ensures ConfText("lattice = " + v) == map["lattice" := Str(Strip(v))]
  {
    LatticeTokens(v);
    ConfTextOfTwoTokens("lattice = " + v, "lattice ", " " + v);
    StripLatticeKey();
    StripLeadingBlank(" " + v);
    assert (" " + v)[1..] == v;
  }

  /** Two tokens make one pair. */
  lemma {:induction false} ConfTextOfTwoTokens(istr: string, a: string, b: string)
    requires ConfTokens(istr) == [a, b]
    ensures ConfText(istr) == map[Strip(a) := Str(Strip(b))]
  {
    var ps := Pairs([a, b]);
    assert ps == [(a, b)];
    var one := [(Strip(a), Str(Strip(b)))];
    assert seq(|ps|, i requires 0 <= i < |ps| => (Strip(ps[i].0), Str(Strip(ps[i].1)))) == one;
    assert one[..0] == [];
    assert DictOf(one) == map[][Strip(a) := Str(Strip(b))];
  }

  lemma {:induction false} StripLatticeKey()
    ensures Strip("lattice ") == "lattice"
  {
    assert "lattice "[..|"lattice "| - 1] == "lattice";
    assert TrimRight("lattice ") == TrimRight("lattice");
  }

  /** `"lattice = v"` splits only at its `=`. */
  lemma {:induction false} LatticeTokens(v: string)
    requires '=' !in v
    ensures ConfTokens("lattice = " + v) == ["lattice ", " " + v]
  {
    ContainsLattice(v);
    var s := "lattice = " + v;
    assert s == "lattice " + ['='] + (" " + v);
    assert '=' !in "lattice ";
    SplitFirst("lattice ", '=', " " + v);
    assert '=' !in " " + v;
    SplitNone(" " + v, '=');
  }

  // ------------------------------------------------------------------ dictionaries updated in place

  /** `{k: m[k] for k in m if k in ks}` */
  function Restrict<V>(m: map<string, V>, ks: set<string>): (r: map<string, V>)
    ensures r.Keys == m.Keys * ks
  {
    map k | k in m && k in ks :: m[k]
  }

  /** Writing one more key of `d` is restricting `d` to one more key. */
  lemma {:induction false} RestrictAdd(m: Dict, d: Dict, done: set<string>, k: string)
    requires k in d
    ensures (m + Restrict(d, done))[k := d[k]] == m + Restrict(d, done + {k})
  {
    var a, b := (m + Restrict(d, done))[k := d[k]], m + Restrict(d, done + {k});
    assert a.Keys == b.Keys;
    forall j | j in a ensures a[j] == b[j] {
    }
  }

  lemma {:induction false} EmptyUnion(d: Dict)
    ensures map[] + d == d
  {
  }

  lemma {:induction false} RestrictAll(d: Dict)
    ensures Restrict(d, d.Keys) == d
  {
  }

  /** `for k, v in d.items(): m[k] = v` */
  method WriteAll(m: Dict, d: Dict) returns (r: Dict)
    ensures r == m + d
  {
    r := m;
    var todo := d.Keys;
    ghost var done: set<string> := {};
    while todo != {}
      invariant todo <= d.Keys && done == d.Keys - todo
      invariant r == m + Restrict(d, done)
      decreases todo
    {
      var k :| k in todo;
      RestrictAdd(m, d, done, k);
      r := r[k := d[k]];
      todo := todo - {k};
      done := done + {k};
    }
    RestrictAll(d);
  }

  /** `m` after `m[k] = u[k]` for every key the two share: no key is added. */
  function Overlay(m: Dict, u: Dict): Dict
  {
    map k | k in m :: if k in u then u[k] else m[k]
  }

  /** Overlaying keeps the keys and takes `u`'s value exactly on the shared ones. */
  lemma {:induction false} OverlayKeepsKeys(m: Dict, u: Dict, k: string)
    ensures k in Overlay(m, u) <==> k in m
    ensures k in m && k in u ==> Overlay(m, u)[k] == u[k]
    ensures k in m && k !in u ==> Overlay(m, u)[k] == m[k]
  {
  }

  /** Overlaying is `dict.update` with the keys `m` does not have left out. */
  lemma {:induction false} OverlayIsRestrictedUpdate(m: Dict, u: Dict)
    ensures Overlay(m, u) == m + Restrict(u, m.Keys)
  {
    var a, b := Overlay(m, u), m + Restrict(u, m.Keys);
    assert a.Keys == b.Keys;
    forall k | k in a ensures a[k] == b[k] {
    }
  }

  /** Overlaying a dict with itself leaves it as it is. */
  lemma {:induction false} OverlaySelf(m: Dict)
    ensures Overlay(m, m) == m
  {
    assert Overlay(m, m).Keys == m.Keys;
  }

  /** Overlaying twice with the same update is overlaying once. */
  lemma {:induction false} OverlayIdempotent(m: Dict, u: Dict)
    ensures Overlay(Overlay(m, u), u) == Overlay(m, u)
  {
    assert Overlay(Overlay(m, u), u).Keys == m.Keys;
  }

  /** `for k in set(u.keys()) & set(m.keys()): m[k] = u[k]` */
  method UpdateKnown(m: Dict, u: Dict) returns (r: Dict)
    ensures r == Overlay(m, u)
  {
    r := m;
    var todo := m.Keys * u.Keys;
    while todo != {}
      invariant todo <= m.Keys * u.Keys
      invariant r == Overlay(m, Restrict(u, m.Keys * u.Keys - todo))
      decreases todo
    {
      var k :| k in todo;
      ghost var before := Restrict(u, m.Keys * u.Keys - todo);
      todo := todo - {k};
      ghost var after := Restrict(u, m.Keys * u.Keys - todo);
      assert after == before[k := u[k]];
      assert Overlay(m, after) == Overlay(m, before)[k := u[k]];
      r := r[k := u[k]];
    }
    assert Restrict(u, m.Keys * u.Keys) == Restrict(u, m.Keys);
    OverlayIsRestrictedUpdate(m, u);
    OverlayIsRestrictedUpdate(m, Restrict(u, m.Keys));
    assert Restrict(Restrict(u, m.Keys), m.Keys) == Restrict(u, m.Keys);
  }

  /** `list(set(xs))`: the elements once each, in an order Python does not fix. */
  method ListOfSet(s: set<string>) returns (r: seq<string>)
    ensures Distinct(r) && SetOf(r) == s
  {
    r := [];
    var todo := s;
    while todo != {}
      invariant todo <= s && SetOf(r) == s - todo && Distinct(r)
      decreases todo
    {
      var k :| k in todo;
      assert k !in SetOf(r);
      assert SetOf(r + [k]) == SetOf(r) + {k};
      r := r + [k];
      todo := todo - {k};
    }
  }

  /** A key list and a dict in step: the same keys, none listed twice. */
  ghost predicate InStep(keys: seq<string>, info: Dict)
  {
    Distinct(keys) && SetOf(keys) == info.Keys
  }

  /** `info.update(conf); keys.extend(conf.keys()); keys = list(set(keys))` */
  method Merge(info: Dict, keys: seq<string>, conf: Dict) returns (info': Dict, keys': seq<string>)
    ensures info' == info + conf
    ensures Distinct(keys') && SetOf(keys') == SetOf(keys) + conf.Keys
    ensures InStep(keys, info) ==> InStep(keys', info')
  {
    info' := info + conf;
    keys' := ListOfSet(SetOf(keys) + conf.Keys);
  }

  /**
   * The effect of a `set...Conf` call on one store: merged when `applies`,
   * otherwise left as it was.
   */
  ghost predicate Stored(applies: bool, info0: Dict, keys0: seq<string>, conf: Dict, info: Dict, keys: seq<string>)
  {
    if applies then info == info0 + conf && Distinct(keys) && SetOf(keys) == SetOf(keys0) + conf.Keys
    else info == info0 && keys == keys0
  }

  // ------------------------------------------------------------------ styles

  type StyleTable = map<string, Dict>

  /** The global style table the class starts with. */
  function DefaultStyles(): StyleTable
  {
    map[
      "quad" := map["h" := Num(0.6), "fc" := Str("red"), "ec" := Str("red"), "alpha" := Num(0.50)],
      "bend" := map["h" := Num(0.5), "fc" := Str("blue"), "ec" := Str("blue"), "alpha" := Num(0.50)],
      "drift" := map["h" := Num(0.1), "lw" := Num(1.0), "color" := Str("black"), "alpha" := Num(0.75)],
      "moni" := map["lw" := Num(1.0), "color" := Str("#FF9500"), "alpha" := Num(0.75)]
    ]
  }

  /** The entries element constructors read from the style table. */
  predicate StyleShape(t: StyleTable)
  {
    "quad" in t && "bend" in t && "moni" in t && "drift" in t && "lw" in t["drift"]
  }

  /** `config[k][k1]` written over `table[k][k1]` for every pair the table already has. */
  function Restyled(t: StyleTable, c: StyleTable): StyleTable
  {
    map k | k in t :: if k in c then Overlay(t[k], c[k]) else t[k]
  }

  /** Restyling keeps every (type, key) pair of the table and adds none. */
  lemma {:induction false} RestyledKeepsPairs(t: StyleTable, c: StyleTable)
    ensures Restyled(t, c).Keys == t.Keys
    ensures forall k :: k in t ==> Restyled(t, c)[k].Keys == t[k].Keys
    ensures StyleShape(t) ==> StyleShape(Restyled(t, c))
  {
    forall k | k in t ensures Restyled(t, c)[k].Keys == t[k].Keys {
      if k in c {
        forall k1 ensures k1 in Overlay(t[k], c[k]) <==> k1 in t[k] {
          OverlayKeepsKeys(t[k], c[k], k1);
        }
      }
    }
  }

  /** With no configuration the table is restyled by itself, which changes nothing. */
  lemma {:induction false} RestyledSelf(t: StyleTable)
    ensures Restyled(t, t) == t
  {
    forall k | k in t ensures Restyled(t, t)[k] == t[k] {
      OverlaySelf(t[k]);
    }
  }

  lemma {:induction false} RestyledAdd(t: StyleTable, c: StyleTable, done: set<string>, k: string)
    requires k in c && k in t && k !in done
    ensures Restyled(t, Restrict(c, done))[k := Overlay(t[k], c[k])] == Restyled(t, Restrict(c, done + {k}))
  {
    var a := Restyled(t, Restrict(c, done))[k := Overlay(t[k], c[k])];
    var b := Restyled(t, Restrict(c, done + {k}));
    assert a.Keys == b.Keys;
    forall j | j in a ensures a[j] == b[j] {
    }
  }

  lemma {:induction false} RestyledAll(t: StyleTable, c: StyleTable)
    ensures Restyled(t, Restrict(c, c.Keys * t.Keys)) == Restyled(t, c)
  {
    var a, b := Restyled(t, Restrict(c, c.Keys * t.Keys)), Restyled(t, c);
    assert a.Keys == b.Keys;
    forall j | j in a ensures a[j] == b[j] {
    }
  }

  /** The type name each element class sets. */
  function TypeName(kind: Kind): string
  {
    match kind
    case Charge => "CHARGE"
    case Center => "CENTER"
    case Csrcsben => "CSRCSBEN"
    case Csrdrift => "CSRDRIFT"
    case Drift => "DRIFT"
    case Kicker => "KICKER"
    case Lscdrift => "LSCDRIFT"
    case Mark => "MARK"
    case Moni => "MONI"
    case Quad => "QUAD"
    case Rfcw => "RFCW"
    case Rfdf => "RFDF"
    case Wake => "WAKE"
    case Watch => "WATCH"
    case BeamlineBlock => "BEAMLINE"
  }

  /**
   * The style dict a new element copies from the table: bends and quads take
   * their line width from `drift`; classes without drawing style have none.
   */
  function StyleOf(kind: Kind, t: StyleTable): (r: Dict)
    requires StyleShape(t)
    ensures kind.Csrcsben? ==> r.Keys == t["bend"].Keys + {"lw"}
    ensures kind.Quad? ==> r.Keys == t["quad"].Keys + {"lw"}
    ensures (kind.Csrcsben? || kind.Quad?) ==> r["lw"] == t["drift"]["lw"]
  {
    match kind
    case Csrcsben => t["bend"]["lw" := t["drift"]["lw"]]
    case Quad => t["quad"]["lw" := t["drift"]["lw"]]
    case Moni => t["moni"]
    case Charge => map[]
    case Center => map[]
    case BeamlineBlock => map[]
    case _ => t["drift"]
  }

  // ------------------------------------------------------------------ the class-level state

  /** `MagBlock.objcnt`, `MagBlock.comminfo` and the private style table. */
  class BlockClass {
    var objcnt: nat
    var comminfo: Dict
    var styleConfig: StyleTable

    ghost predicate Valid()
      reads this
    {
      StyleShape(styleConfig)
    }

    constructor ()
      ensures objcnt == 0 && comminfo == map[] && styleConfig == DefaultStyles()
      ensures Valid()
    {
      objcnt := 0;
      comminfo := map[];
      styleConfig := DefaultStyles();
    }

    /** `sumObjNum`: how many elements have been constructed. */
    method SumObjNum() returns (n: nat)
      ensures n == objcnt
    {
      n := objcnt;
    }

    /**
     * `setCommInfo`: every pair of the dict (or of the parsed text) is written
     * into the shared common information; any other argument changes nothing.
     */
    method SetCommInfo(info: Conf)
      modifies this`comminfo
      ensures comminfo == old(comminfo) + ConfOf(info)
    {
      comminfo := WriteAll(comminfo, ConfOf(info));
    }

    /** The loop of `setStyleConfig`: each style both tables have, overlaid by `c`'s pairs. */
    static method Restyle(t0: StyleTable, c: StyleTable) returns (t: StyleTable)
      ensures t == Restyled(t0, c)
    {
      t := t0;
      var todo := c.Keys * t0.Keys;
      ghost var done: set<string> := {};
      while todo != {}
        invariant todo <= c.Keys * t0.Keys && done == c.Keys * t0.Keys - todo
        invariant t == Restyled(t0, Restrict(c, done))
        decreases todo
      {
        var k :| k in todo;
        assert t[k] == t0[k];
        var inner := UpdateKnown(t[k], c[k]);
        RestyledAdd(t0, c, done, k);
        t := t[k := inner];
        todo := todo - {k};
        done := done + {k};
      }
      RestyledAll(t0, c);
    }

    /**
     * `setStyleConfig`: with `showhelp` nothing changes and nothing is returned;
     * otherwise the table is restyled by `config` (by itself when there is none)
     * and returned.
     */
    method SetStyleConfig(config: Option<StyleTable>, showhelp: bool) returns (r: Option<StyleTable>)
      modifies this`styleConfig
      ensures showhelp ==> r.None? && styleConfig == old(styleConfig)
      ensures !showhelp ==> r == Some(styleConfig)
      ensures !showhelp ==> styleConfig == Restyled(old(styleConfig), config.GetOr(old(styleConfig)))
      ensures old(Valid()) ==> Valid()
    {
      if showhelp {
        return None;
      }
      ghost var t0 := styleConfig;
      var c := config.GetOr(styleConfig);
      styleConfig := Restyle(styleConfig, c);
      RestyledKeepsPairs(t0, c);
      r := Some(styleConfig);
    }
  }

  // ------------------------------------------------------------------ the element

  class MagBlock {
    /** Set when the element is made and never changed afterwards. */
    const name: string
    const typename: string
    var comminfo: Dict
    var simuinfo: Dict
    var ctrlinfo: Dict
    var miscinfo: Dict
    var simukeys: seq<string>
    var ctrlkeys: seq<string>
    var misckeys: seq<string>
    var spos: Option<real>
    var style: Dict

    /** Every key list is in step with its dict. */
    ghost predicate Valid()
      reads this
    {
      InStep(simukeys, simuinfo) && InStep(ctrlkeys, ctrlinfo) && InStep(misckeys, miscinfo)
    }

    /**
     * An element of class `kind`: the class counter goes up by one, the common
     * information is copied, `config` goes to the simulation store and the style
     * is copied from the table.
     */
    constructor (cls: BlockClass, kind: Kind, name: string, config: Conf)
      requires cls.Valid()
      modifies cls`objcnt
      ensures cls.objcnt == old(cls.objcnt) + 1
      ensures this.name == name && typename == TypeName(kind) && comminfo == cls.comminfo
      ensures simuinfo == ConfOf(config) && ctrlinfo == map[] && miscinfo == map[]
      ensures ctrlkeys == [] && misckeys == [] && spos == None
      ensures style == StyleOf(kind, cls.styleConfig)
      ensures Valid()
    {
      cls.objcnt := cls.objcnt + 1;
      this.name := name;
      typename := TypeName(kind);
      comminfo := cls.comminfo;
      // `setConf(config)` on the empty simulation store
      if config.NoConf? {
        simuinfo, simukeys := map[], [];
      } else {
        var info, keys := Merge(map[], [], ConfOf(config));
        EmptyUnion(ConfOf(config));
        simuinfo, simukeys := info, keys;
      }
      ctrlinfo, miscinfo := map[], map[];
      ctrlkeys, misckeys := [], [];
      spos := None;
      style := StyleOf(kind, cls.styleConfig);
    }

    /** `copy.deepcopy(e)`: every field copied, the class counter untouched. */
    constructor Copy(e: MagBlock)
      ensures name == e.name && typename == e.typename && comminfo == e.comminfo
      ensures simuinfo == e.simuinfo && ctrlinfo == e.ctrlinfo && miscinfo == e.miscinfo
      ensures simukeys == e.simukeys && ctrlkeys == e.ctrlkeys && misckeys == e.misckeys
      ensures spos == e.spos && style == e.style
    {
      name, typename, comminfo := e.name, e.typename, e.comminfo;
      simuinfo, ctrlinfo, miscinfo := e.simuinfo, e.ctrlinfo, e.miscinfo;
      simukeys, ctrlkeys, misckeys := e.simukeys, e.ctrlkeys, e.misckeys;
      spos, style := e.spos, e.style;
    }

    method SetSimuConf(conf: Dict)
      modifies this`simuinfo, this`simukeys
      ensures Stored(true, old(simuinfo), old(simukeys), conf, simuinfo, simukeys)
      ensures old(InStep(simukeys, simuinfo)) ==> InStep(simukeys, simuinfo)
    {
      simuinfo, simukeys := Merge(simuinfo, simukeys, conf);
    }

    method SetCtrlConf(conf: Dict)
      modifies this`ctrlinfo, this`ctrlkeys
      ensures Stored(true, old(ctrlinfo), old(ctrlkeys), conf, ctrlinfo, ctrlkeys)
      ensures old(InStep(ctrlkeys, ctrlinfo)) ==> InStep(ctrlkeys, ctrlinfo)
    {
      ctrlinfo, ctrlkeys := Merge(ctrlinfo, ctrlkeys, conf);
    }

    method SetMiscConf(conf: Dict)
      modifies this`miscinfo, this`misckeys
      ensures Stored(true, old(miscinfo), old(misckeys), conf, miscinfo, misckeys)
      ensures old(InStep(misckeys, miscinfo)) ==> InStep(misckeys, miscinfo)
    {
      miscinfo, misckeys := Merge(miscinfo, misckeys, conf);
    }

    /**
     * `setConf(conf, type)`: `None` changes nothing; otherwise the (parsed)
     * configuration is merged into the store `type` names, and an unknown
     * `type` is the `KeyError` (`ok` false, nothing changed).
     */
    method SetConf(conf: Conf, store: string) returns (ok: bool)
      modifies this`simuinfo, this`simukeys, this`ctrlinfo, this`ctrlkeys, this`miscinfo, this`misckeys
      ensures ok <==> conf.NoConf? || store == "simu" || store == "ctrl" || store == "misc"
      ensures Stored(!conf.NoConf? && store == "simu", old(simuinfo), old(simukeys), ConfOf(conf), simuinfo, simukeys)
      ensures Stored(!conf.NoConf? && store == "ctrl", old(ctrlinfo), old(ctrlkeys), ConfOf(conf), ctrlinfo, ctrlkeys)
      ensures Stored(!conf.NoConf? && store == "misc", old(miscinfo), old(misckeys), ConfOf(conf), miscinfo, misckeys)
      ensures old(Valid()) ==> Valid()
    {
      if conf.NoConf? {
        return true;
      }
      var d := ConfOf(conf);
      ok := true;
      if store == "simu" {
        SetSimuConf(d);
      } else if store == "ctrl" {
        SetCtrlConf(d);
      } else if store == "misc" {
        SetMiscConf(d);
      } else {
        ok := false;
      }
    }

    /** A subclass's `setStyle(**style)`: only keys the style already has are re-valued. */
    method SetStyle(upd: Dict)
      modifies this`style
      ensures style == Overlay(old(style), upd)
    {
      style := UpdateKnown(style, upd);
    }

    method SetPosition(s: real)
      modifies this`spos
      ensures spos == Some(s)
    {
      spos := Some(s);
    }

    /** `{name.upper(): {typename: d}}`, the shape of every dump. */
    function Wrapped(d: Dict): map<string, map<string, Dict>>
      reads this
    {
      map[Upper(name) := map[typename := d]]
    }

    /** `{k: info[k] for k in keys}` */
    static function Dumped(keys: seq<string>, info: Dict): (r: Dict)
      requires forall k :: k in keys ==> k in info
      ensures r.Keys == SetOf(keys)
      ensures InStep(keys, info) ==> r == info
    {
      map k | k in keys :: info[k]
    }

    /** `_dumpSimuConf`: with the key list in step, exactly the simulation dict. */
    function SimuConf(): (r: map<string, map<string, Dict>>)
      reads this
      requires forall k :: k in simukeys ==> k in simuinfo
      ensures InStep(simukeys, simuinfo) ==> r == Wrapped(simuinfo)
    {
      Wrapped(Dumped(simukeys, simuinfo))
    }

    /** `_dumpCtrlConf` */
    function CtrlConf(): (r: map<string, map<string, Dict>>)
      reads this
      requires forall k :: k in ctrlkeys ==> k in ctrlinfo
      ensures InStep(ctrlkeys, ctrlinfo) ==> r == Wrapped(ctrlinfo)
    {
      Wrapped(Dumped(ctrlkeys, ctrlinfo))
    }

    /** `_dumpMiscConf` */
    function MiscConf(): (r: map<string, map<string, Dict>>)
      reads this
      requires forall k :: k in misckeys ==> k in miscinfo
      ensures InStep(misckeys, miscinfo) ==> r == Wrapped(miscinfo)
    {
      Wrapped(Dumped(misckeys, miscinfo))
    }

    /** `_dumpAllConf`: the four dicts merged, control over simulation over misc over common. */
    function AllConf(): (r: map<string, map<string, Dict>>)
      reads this
      ensures Upper(name) in r && typename in r[Upper(name)]
      ensures r[Upper(name)][typename].Keys == comminfo.Keys + miscinfo.Keys + simuinfo.Keys + ctrlinfo.Keys
      ensures forall k :: k in ctrlinfo ==> r[Upper(name)][typename][k] == ctrlinfo[k]
      ensures forall k :: k in simuinfo && k !in ctrlinfo ==> r[Upper(name)][typename][k] == simuinfo[k]
      ensures forall k :: k in miscinfo && k !in simuinfo && k !in ctrlinfo ==> r[Upper(name)][typename][k] == miscinfo[k]
      ensures forall k :: k in comminfo && k !in miscinfo && k !in simuinfo && k !in ctrlinfo ==> r[Upper(name)][typename][k] == comminfo[k]
    {
      Wrapped(comminfo + miscinfo + simuinfo + ctrlinfo)
    }

    /**
     * `_dumpOnlineConf`: the simulation dict with the control value in place of
     * every key the control list also names; the element is left unchanged.
     */
    method DumpOnlineConf() returns (r: map<string, map<string, Dict>>)
      requires forall k :: k in simuinfo && k in ctrlkeys ==> k in ctrlinfo
      ensures Upper(name) in r && typename in r[Upper(name)]
      ensures r[Upper(name)][typename].Keys == simuinfo.Keys
      ensures forall k :: k in simuinfo && k in ctrlkeys ==> r[Upper(name)][typename][k] == ctrlinfo[k]
      ensures forall k :: k in simuinfo && k !in ctrlkeys ==> r[Upper(name)][typename][k] == simuinfo[k]
    {
      var oinfod := UpdateKnown(simuinfo, Restrict(ctrlinfo, SetOf(ctrlkeys)));
      r := Wrapped(oinfod);
      forall k ensures k in oinfod <==> k in simuinfo {
        OverlayKeepsKeys(simuinfo, Restrict(ctrlinfo, SetOf(ctrlkeys)), k);
      }
    }

    /** `getLength`: the simulation `l` as a float, or 0.0 when the dump or the conversion fails. */
    function Length(): (l: real)
      reads this`simukeys, this`simuinfo
      ensures l != 0.0 ==> "l" in simukeys && "l" in simuinfo
    {
      LengthIn(simukeys, simuinfo)
    }

    /**
     * The length a simulation store reports: its `l` as a number, a text read as a
     * float, or 0.0 when the dump raises (a listed key is missing), `l` is absent
     * or the text is not a float.
     */
    static function LengthIn(keys: seq<string>, info: Dict): (l: real)
      ensures l != 0.0 ==> "l" in keys && "l" in info
      ensures (forall k :: k in keys ==> k in info) && "l" in keys && info["l"].Num? ==> l == info["l"].r
      ensures (forall k :: k in keys ==> k in info) && "l" in keys && info["l"].Str? && ParseFloat(info["l"].s).Some? ==> l == ParseFloat(info["l"].s).value
      ensures (forall k :: k in keys ==> k in info) && "l" in keys && info["l"].Str? && ParseFloat(info["l"].s).None? ==> l == 0.0
      ensures !((forall k :: k in keys ==> k in info) && "l" in keys) ==> l == 0.0
    {
      if (forall k :: k in keys ==> k in info) && "l" in keys then
        match info["l"]
        case Num(x) => x
        case Str(s) => ParseFloat(s).GetOr(0.0)
      else 0.0
    }
  }
}
