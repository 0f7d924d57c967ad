/**
 * The text `formatElement` and `generateLatticeFile` write for the elegant
 * format: one `NAME  :      TYPE, k = "v", ...` statement per element and one
 * `NAME  : line = (a, b, ...)` statement for the beamline.
 */
module LatticeFormat {
  import opened Wrappers
  import opened PyStr
  import opened PySeq
  import opened LatticeData
  import opened LteParser

  /**
   * `getElementConf(kw)`: the parameter dict of the record, or `{}` when the
   * keyword is missing or its record has no parameter dict.
   */
  function ElementConf(ns: Namespace, kw: string): (r: map<string, Value>)
    ensures r != map[] ==> ElementType(ns, kw).Some? && ns[Upper(kw)].Element?
  {
    var key := Upper(kw);
    if key in ns && ns[key].Element? then ns[key].params else map[]
  }

  /** `str(v)`: the text of a value; numbers are shown by `show`, Python's `str` of a float. */
  function Shown(v: Value, show: real -> string): string
  {
    match v
    case Str(s) => s
    case Num(x) => show(x)
  }

  /** `k + ' = ' + '"' + str(v) + '"' + ', '` */
  function Item(k: string, v: Value, show: real -> string): (r: string)
    ensures |r| >= 2 && r[|r| - 2..] == ", "
  {
    k + " = \"" + Shown(v, show) + "\", "
  }

  /** The items of the keys `ks`, in that order, each followed by `, `. */
  function Items(params: map<string, Value>, ks: seq<string>, show: real -> string): (r: string)
    requires forall k :: k in ks ==> k in params
    ensures |ks| > 0 ==> |r| >= 2 && r[|r| - 2..] == ", "
  {
    if |ks| == 0 then ""
    else Items(params, ks[..|ks| - 1], show) + Item(ks[|ks| - 1], params[ks[|ks| - 1]], show)
  }

  /** `'{eid:<6s}:{etype:>10s}, {econf}'` with the trailing `, ` of the items cut off. */
  function ElementLine(kw: string, etype: string, items: string): string
  {
    PadRight(Upper(kw), 6) + ":" + PadLeft(Upper(etype), 10) + ", " + SliceStr(items, 0, -2)
  }

  /** `'{bl:<6s}: line = ({lattice})'` over the names joined by `, `. */
  function BeamlineText(bl: string, names: seq<string>): string
  {
    PadRight(Upper(bl), 6) + ": line = (" + Join(", ", names) + ")"
  }

  // ------------------------------------------------------------------ padding and stripping

  lemma {:induction false} TrimLeftSpaces(n: nat, s: string)
    ensures TrimLeft(Spaces(n) + s) == TrimLeft(s)
  {
    if n > 0 {
      SpacesCons(n, s);
      TrimLeftCons(Spaces(n - 1) + s);
      TrimLeftSpaces(n - 1, s);
    } else {
      assert Spaces(n) + s == s;
    }
  }

  lemma {:induction false} SpacesCons(n: nat, s: string)
    requires n > 0
    ensures Spaces(n) + s == [' '] + (Spaces(n - 1) + s)
  {
  }

  lemma {:induction false} TrimLeftCons(u: string)
    ensures TrimLeft([' '] + u) == TrimLeft(u)
  {
    assert ([' '] + u)[1..] == u;
  }

  lemma {:induction false} TrimRightSpaces(s: string, n: nat)
    ensures TrimRight(s + Spaces(n)) == TrimRight(s)
  {
    if n > 0 {
      var t := s + Spaces(n);
      assert t[|t| - 1] == ' ';
      assert t[..|t| - 1] == s + Spaces(n - 1);
      assert TrimRight(t) == TrimRight(t[..|t| - 1]);
      TrimRightSpaces(s, n - 1);
    } else {
      assert s + Spaces(n) == s;
    }
  }

  lemma {:induction false} TrimmedUnchanged(s: string)
    requires Trimmed(s)
    ensures TrimLeft(s) == s && TrimRight(s) == s
  {
  }

  /** Right-justifying a trimmed text and stripping it gives the text back. */
  lemma {:induction false} StripPadLeft(s: string, w: nat)
    requires Trimmed(s)
    ensures Strip(PadLeft(s, w)) == s
  {
    TrimmedUnchanged(s);
    if |s| < w {
      var t := Spaces(w - |s|) + s;
      assert PadLeft(s, w) == t;
      TrimLeftSpaces(w - |s|, s);
      assert TrimLeft(t) == s;
      assert Strip(t) == TrimRight(s);
    } else {
      assert PadLeft(s, w) == s;
      assert Strip(s) == TrimRight(s);
    }
  }

  /** Left-justifying a trimmed text and stripping it gives the text back. */
  lemma {:induction false} StripPadRight(s: string, w: nat)
    requires Trimmed(s)
    ensures Strip(PadRight(s, w)) == s
  {
    TrimmedUnchanged(s);
    if |s| < w {
      var n := w - |s|;
      var t := s + Spaces(n);
      assert PadRight(s, w) == t;
      if s == "" {
        TrimLeftSpaces(n, "");
        assert Spaces(n) + "" == t;
        assert TrimLeft(t) == "";
        assert Strip(t) == TrimRight("");
      } else {
        assert TrimLeft(t) == t;
        TrimRightSpaces(s, n);
        assert Strip(t) == TrimRight(t);
      }
    } else {
      assert PadRight(s, w) == s;
      assert Strip(s) == TrimRight(s);
    }
  }

  lemma {:induction false} PadLeftChars(s: string, w: nat, c: char)
    requires c != ' ' && c !in s
    ensures c !in PadLeft(s, w)
  {
  }

  lemma {:induction false} PadRightChars(s: string, w: nat, c: char)
    requires c != ' ' && c !in s
    ensures c !in PadRight(s, w)
  {
  }

  lemma {:induction false} SliceChars(s: string, c: char)
    requires c !in s
    ensures c !in SliceStr(s, 0, -2)
  {
    var r := SliceStr(s, 0, -2);
    assert forall i :: 0 <= i < |r| ==> r[i] == s[i];
  }

  // ------------------------------------------------------------------ reading a statement back

  /** A statement with one `:` reads as the upper-cased, trimmed text before it, with the rest as its descriptor. */
  lemma {:induction false} ColonSplit(a: string, b: string)
    requires ':' !in a && ':' !in b
    ensures Str2Dict(a + ":" + b).Some? && Str2Dict(a + ":" + b).value.0 == Upper(Strip(a))
    ensures Descriptor(a + ":" + b) == b
  {
    var line := a + ":" + b;
    IndexOfCharAt(line, ':', |a|);
    assert line[..|a|] == a;
    assert line[|a| + 1..] == b;
    IndexOfCharAt(b, ':', |b|);
    assert b[..|b|] == b;
  }

  lemma {:induction false} NotInConcat(c: char, a: string, b: string)
    requires c !in a && c !in b
    ensures c !in a + b
  {
  }

  lemma {:induction false} CommaSplit(p: string, rest: string)
    requires ',' !in p
    ensures IndexOfChar(p + ", " + rest, ',') == |p| && (p + ", " + rest)[..|p|] == p
    ensures (p + ", " + rest)[|p| + 1..] == " " + rest
  {
    IndexOfCharAt(p + ", " + rest, ',', |p|);
  }

  /** A statement `a:p, rest` reads as keyword `Strip(a)` and type `Strip(p)`, with a parameter dict. */
  lemma {:induction false} StatementReadsBack(a: string, p: string, rest: string)
    requires ':' !in a && ':' !in p && ':' !in rest
    requires ';' !in a && ';' !in p && ';' !in rest && ',' !in p
    ensures var r := Str2Dict(a + ":" + (p + ", " + rest));
            && r.Some? && r.value.0 == Upper(Strip(a))
            && r.value.1.Element? && r.value.1.etype == Strip(p)
            && r.value.1.params == ParamsOf(" " + rest)
  {
    var b := p + ", " + rest;
    var line := a + ":" + b;
    assert ';' !in line by {
      NotInConcat(';', p, ", ");
      NotInConcat(';', p + ", ", rest);
      NotInConcat(';', a, ":");
      NotInConcat(';', a + ":", b);
    }
    ColonSplit(a, b);
    CommaSplit(p, rest);
    Str2DictShape(line);
    var e := Str2Dict(line).value.1;
    assert Shaped(b, e);
    assert IndexOfChar(b, ',') < |b|;
  }

  /**
   * A formatted statement read back by `str2dict` gives the keyword and the type
   * it was written from, with the parameters of the item text, whenever neither
   * holds a blank at its ends or a separator the reader splits on.
   */
  lemma {:induction false} ElementLineReadsBack(kw: string, etype: string, items: string)
    requires Trimmed(Upper(kw)) && ':' !in Upper(kw) && ';' !in Upper(kw)
    requires Trimmed(Upper(etype)) && ':' !in Upper(etype) && ';' !in Upper(etype) && ',' !in Upper(etype)
    requires ':' !in items && ';' !in items
    ensures var r := Str2Dict(ElementLine(kw, etype, items));
            && r.Some? && r.value.0 == Upper(kw)
            && r.value.1 == Element(Upper(etype), ParamsOf(" " + SliceStr(items, 0, -2)))
  {
    var a := PadRight(Upper(kw), 6);
    var p := PadLeft(Upper(etype), 10);
    var rest := SliceStr(items, 0, -2);
    assert ElementLine(kw, etype, items) == a + ":" + (p + ", " + rest);
    PadRightChars(Upper(kw), 6, ':');
    PadRightChars(Upper(kw), 6, ';');
    PadLeftChars(Upper(etype), 10, ':');
    PadLeftChars(Upper(etype), 10, ';');
    PadLeftChars(Upper(etype), 10, ',');
    SliceChars(items, ':');
    SliceChars(items, ';');
    StatementReadsBack(a, p, rest);
    StripPadRight(Upper(kw), 6);
    StripPadLeft(Upper(etype), 10);
    UpperIdempotent(kw);
  }

  // ------------------------------------------------------------------ reading the parameters back

  /** A key or a shown value that holds none of the characters `str2dict` splits on or strips. */
  predicate Plain(s: string)
  {
    ',' !in s && '=' !in s && ':' !in s && ';' !in s && '"' !in s && '\'' !in s
  }

  /** The items of `ks` can be written and read back: distinct, present, non-empty trimmed plain keys with plain values. */
  predicate ReadableItems(params: map<string, Value>, ks: seq<string>, show: real -> string)
  {
    && Distinct(ks)
    && (forall k :: k in ks ==> k in params)
    && (forall k :: k in ks ==> k != "" && Trimmed(k) && Plain(k) && Plain(Shown(params[k], show)))
  }

  /** The key token of an item, as `str2dict` splits it out: the key with its blanks. */
  function KeyToken(k: string): string { " " + k + " " }

  /** The value token of an item: the quoted value after its blank. */
  function ValueToken(s: string): string { " \"" + s + "\"" }

  /** The key/value tokens of the items of `ks`, in order. */
  function ItemTokens(params: map<string, Value>, ks: seq<string>, show: real -> string): seq<(string, string)>
    requires forall k :: k in ks ==> k in params
  {
    seq(|ks|, i requires 0 <= i < |ks| => (KeyToken(ks[i]), ValueToken(Shown(params[ks[i]], show))))
  }

  lemma {:induction false} JoinSnoc(sep: string, xs: seq<string>, a: string)
    requires |xs| >= 1
    ensures Join(sep, xs + [a]) == Join(sep, xs) + sep + a
    decreases |xs|
  {
    if |xs| == 1 {
      assert (xs + [a])[1..] == [a];
    } else {
      assert (xs + [a])[1..] == xs[1..] + [a];
      JoinSnoc(sep, xs[1..], a);
    }
  }

  /** A character that no key, no value and no separator holds is not in the items. */
  lemma {:induction false} ItemsLack(params: map<string, Value>, ks: seq<string>, show: real -> string, c: char)
    requires forall k :: k in ks ==> k in params
    requires c !in " = \"" && c !in "\", "
    requires forall k :: k in ks ==> c !in k && c !in Shown(params[k], show)
    ensures c !in Items(params, ks, show)
    decreases |ks|
  {
    if |ks| > 0 {
      var k := ks[|ks| - 1];
      assert k in ks;
      assert forall x :: x in ks[..|ks| - 1] ==> x in ks;
      ItemsLack(params, ks[..|ks| - 1], show, c);
      NotInConcat(c, k, " = \"");
      NotInConcat(c, k + " = \"", Shown(params[k], show));
      NotInConcat(c, k + " = \"" + Shown(params[k], show), "\", ");
      NotInConcat(c, Items(params, ks[..|ks| - 1], show), Item(k, params[k], show));
    }
  }

  /** An item without its trailing `, `: `k = "v"`. */
  function ItemText(k: string, s: string): string { k + " = \"" + s + "\"" }

  lemma {:induction false} SliceComma(u: string)
    ensures SliceStr(u + ", ", 0, -2) == u
  {
    assert (u + ", ")[..|u|] == u;
  }

  lemma {:induction false} CommaEnded(y: string)
    requires |y| >= 2 && y[|y| - 2..] == ", "
    ensures y == SliceStr(y, 0, -2) + ", "
  {
    assert y == y[..|y| - 2] + y[|y| - 2..];
  }

  /** Cutting `, ` off the items leaves the earlier items followed by the last one's text. */
  lemma {:induction false} ItemsSnoc(params: map<string, Value>, ks: seq<string>, show: real -> string)
    requires |ks| >= 1 && forall k :: k in ks ==> k in params
    ensures forall k :: k in ks[..|ks| - 1] ==> k in params
    ensures SliceStr(Items(params, ks, show), 0, -2)
         == Items(params, ks[..|ks| - 1], show) + ItemText(ks[|ks| - 1], Shown(params[ks[|ks| - 1]], show))
  {
    var k := ks[|ks| - 1];
    assert k in ks;
    assert forall x :: x in ks[..|ks| - 1] ==> x in ks;
    var t := ItemText(k, Shown(params[k], show));
    assert Item(k, params[k], show) == t + ", ";
    var x := Items(params, ks[..|ks| - 1], show);
    assert Items(params, ks, show) == (x + t) + ", ";
    SliceComma(x + t);
  }

  /** The last item's text, its `,` turned into `=`: its key token, `=`, its value token. */
  lemma {:induction false} ItemTextTokens(k: string, s: string)
    requires ',' !in k && ',' !in s
    ensures ReplaceChar(" " + ItemText(k, s), ',', '=') == KeyToken(k) + "=" + ValueToken(s)
  {
    assert " " + ItemText(k, s) == KeyToken(k) + "=" + ValueToken(s);
    ReplaceCharAbsent(" " + ItemText(k, s), ',', '=');
  }

  /** A further item adds `=`, its key token, `=` and its value token to the replaced text. */
  lemma {:induction false} NextItemTokens(x: string, k: string, s: string)
    requires |x| >= 2 && x[|x| - 2..] == ", " && ',' !in k && ',' !in s
    ensures ReplaceChar(" " + (x + ItemText(k, s)), ',', '=')
         == ReplaceChar(" " + SliceStr(x, 0, -2), ',', '=') + "=" + KeyToken(k) + "=" + ValueToken(s)
  {
    CommaEnded(x);
    var u := " " + SliceStr(x, 0, -2);
    assert " " + (x + ItemText(k, s)) == u + (",") + (" " + ItemText(k, s));
    ReplaceCharConcat(u + ",", " " + ItemText(k, s), ',', '=');
    ReplaceCharConcat(u, ",", ',', '=');
    assert ReplaceChar(",", ',', '=') == "=";
    ItemTextTokens(k, s);
  }

  lemma {:induction false} JoinSnoc2(sep: string, xs: seq<string>, a: string, b: string)
    requires |xs| >= 1
    ensures Join(sep, xs + [a, b]) == Join(sep, xs) + sep + a + sep + b
  {
    assert xs + [a, b] == (xs + [a]) + [b];
    JoinSnoc(sep, xs + [a], b);
    JoinSnoc(sep, xs, a);
  }

  /** The tokens of one more item follow those of the earlier ones. */
  lemma {:induction false} ItemTokensSnoc(params: map<string, Value>, ks: seq<string>, show: real -> string)
    requires |ks| >= 1 && forall k :: k in ks ==> k in params
    ensures forall k :: k in ks[..|ks| - 1] ==> k in params
    ensures ks[|ks| - 1] in params
    ensures Interleaved(ItemTokens(params, ks, show))
         == Interleaved(ItemTokens(params, ks[..|ks| - 1], show))
            + [KeyToken(ks[|ks| - 1]), ValueToken(Shown(params[ks[|ks| - 1]], show))]
  {
    assert ks[|ks| - 1] in ks;
    assert forall x :: x in ks[..|ks| - 1] ==> x in ks;
    var ts := ItemTokens(params, ks, show);
    var ts' := ItemTokens(params, ks[..|ks| - 1], show);
    assert ts == ts' + [ts[|ks| - 1]];
    var l := Interleaved(ts);
    var r := Interleaved(ts') + [ts[|ks| - 1].0, ts[|ks| - 1].1];
    assert |l| == |r|;
    forall j | 0 <= j < |l| ensures l[j] == r[j] {
      if j < 2 * |ts'| {
        assert j / 2 < |ts'|;
      } else {
        assert j / 2 == |ts'|;
      }
    }
  }

  /**
   * The text after the type's `,` is, once its `,` are turned into `=`, the
   * key and value tokens of the items joined by `=`.
   */
  lemma {:induction false} ItemsTail(params: map<string, Value>, ks: seq<string>, show: real -> string)
    requires |ks| >= 1 && forall k :: k in ks ==> k in params
    requires forall k :: k in ks ==> ',' !in k && ',' !in Shown(params[k], show)
    ensures ReplaceChar(" " + SliceStr(Items(params, ks, show), 0, -2), ',', '=')
         == Join("=", Interleaved(ItemTokens(params, ks, show)))
    decreases |ks|
  {
    var ks' := ks[..|ks| - 1];
    var k := ks[|ks| - 1];
    ItemsSnoc(params, ks, show);
    ItemTokensSnoc(params, ks, show);
    assert k in ks;
    var s := Shown(params[k], show);
    var x := Items(params, ks', show);
    var ts' := Interleaved(ItemTokens(params, ks', show));
    if |ks| == 1 {
      assert x == "" && ts' == [];
      assert x + ItemText(k, s) == ItemText(k, s);
      ItemTextTokens(k, s);
      assert Join("=", [KeyToken(k), ValueToken(s)]) == KeyToken(k) + "=" + Join("=", [ValueToken(s)]);
      assert [] + [KeyToken(k), ValueToken(s)] == [KeyToken(k), ValueToken(s)];
    } else {
      assert forall y :: y in ks' ==> y in ks;
      ItemsTail(params, ks', show);
      NextItemTokens(x, k, s);
      JoinSnoc2("=", ts', KeyToken(k), ValueToken(s));
    }
  }

  /** `str2dict` keeps every token of the items, in order. */
  lemma {:induction false} ItemsTokens(params: map<string, Value>, ks: seq<string>, show: real -> string)
    requires |ks| >= 1 && ReadableItems(params, ks, show)
    ensures ParamTokens(" " + SliceStr(Items(params, ks, show), 0, -2)) == Interleaved(ItemTokens(params, ks, show))
  {
    ItemsTail(params, ks, show);
    var ts := Interleaved(ItemTokens(params, ks, show));
    forall i | 0 <= i < |ts|
      ensures '=' !in ts[i] && NonBlank(ts[i])
    {
      var k := ks[i / 2];
      assert k in ks;
      if i % 2 == 0 {
        assert ts[i] == KeyToken(k);
        assert ts[i][1] == k[0];
      } else {
        assert ts[i] == ValueToken(Shown(params[k], show));
        assert ts[i][1] == '"';
      }
    }
    SplitJoin(ts, '=');
    assert "=" == ['='];
    FilterAll(ts, NonBlank);
  }

  lemma {:induction false} StripKeyToken(k: string)
    requires k != "" && Trimmed(k)
    ensures Strip(KeyToken(k)) == k
  {
    TrimmedUnchanged(k);
    assert KeyToken(k) == Spaces(1) + (k + " ");
    TrimLeftSpaces(1, k + " ");
    assert TrimLeft(k + " ") == k + " ";
    assert k + " " == k + Spaces(1);
    TrimRightSpaces(k, 1);
  }

  lemma {:induction false} StripValueToken(s: string)
    ensures Strip(ValueToken(s)) == "\"" + s + "\""
  {
    var q := "\"" + s + "\"";
    assert ValueToken(s) == Spaces(1) + q;
    TrimLeftSpaces(1, q);
    assert TrimLeft(q) == q;
    assert TrimRight(q) == q;
  }

  lemma {:induction false} UnquoteQuoted(s: string)
    requires '"' !in s && '\'' !in s
    ensures Unquote("\"" + s + "\"") == s
  {
    RemoveCharConcat("\"", s + "\"", '"');
    RemoveCharConcat(s, "\"", '"');
    RemoveAbsent(s, '"');
    assert RemoveChar("\"", '"') == "";
    assert "\"" + s + "\"" == "\"" + (s + "\"");
    assert RemoveChar("\"" + s + "\"", '"') == s;
    RemoveAbsent(s, '\'');
  }

  /** An item's tokens cook to its key and its shown value. */
  lemma {:induction false} CookItem(k: string, s: string)
    requires k != "" && Trimmed(k) && '"' !in s && '\'' !in s
    ensures Cook((KeyToken(k), ValueToken(s))) == (k, Str(s))
  {
    StripKeyToken(k);
    StripValueToken(s);
    UnquoteQuoted(s);
  }

  /** The key and the written value of each item, as `str2dict` cooks them. */
  function CookedItems(params: map<string, Value>, ks: seq<string>, show: real -> string): seq<(string, Value)>
    requires forall k :: k in ks ==> k in params
  {
    seq(|ks|, i requires 0 <= i < |ks| => (ks[i], Str(Shown(params[ks[i]], show))))
  }

  /** `str2dict` pairs and cooks the tokens of the items into their keys and written values. */
  lemma {:induction false} ItemsPairs(params: map<string, Value>, ks: seq<string>, show: real -> string)
    requires |ks| >= 1 && ReadableItems(params, ks, show)
    ensures ParamPairs(" " + SliceStr(Items(params, ks, show), 0, -2)) == CookedItems(params, ks, show)
  {
    ItemsTokens(params, ks, show);
    PairsInterleaved(ItemTokens(params, ks, show));
    var ps := ParamPairs(" " + SliceStr(Items(params, ks, show), 0, -2));
    var cs := CookedItems(params, ks, show);
    assert |ps| == |cs|;
    forall i | 0 <= i < |ks|
      ensures ps[i] == cs[i]
    {
      assert ks[i] in ks;
      CookItem(ks[i], Shown(params[ks[i]], show));
    }
  }

  /** With distinct keys, the dict of the cooked items maps each key to its written value. */
  lemma {:induction false} CookedDict(params: map<string, Value>, ks: seq<string>, show: real -> string)
    requires Distinct(ks) && forall k :: k in ks ==> k in params
    ensures DictOf(CookedItems(params, ks, show)) == map k | k in ks :: Str(Shown(params[k], show))
  {
    var ps := CookedItems(params, ks, show);
    var m := map k | k in ks :: Str(Shown(params[k], show));
    assert DistinctKeys(ps);
    DictOfDistinct(ps);
    var d := DictOf(ps);
    forall k | k in ks ensures k in d && d[k] == m[k] {
      var i :| 0 <= i < |ks| && ks[i] == k;
      assert ps[i].0 == k;
    }
    assert d.Keys == m.Keys;
  }

  /** `str2dict` reads the parameter text of no item as no parameter. */
  lemma {:induction false} NoItemsReadBack(params: map<string, Value>, show: real -> string)
    ensures ParamsOf(" " + SliceStr(Items(params, [], show), 0, -2)) == map[]
  {
    var tail := " " + SliceStr(Items(params, [], show), 0, -2);
    assert tail == " ";
    ReplaceCharAbsent(tail, ',', '=');
    SplitNone(tail, '=');
    assert !NonBlank(" ");
    assert Filter([" "], NonBlank) == [];
    assert ParamTokens(tail) == [];
  }

  /** `str2dict` reads the parameter text of the items back as the keys mapped to their shown values. */
  lemma {:induction false} ItemsReadBack(params: map<string, Value>, ks: seq<string>, show: real -> string)
    requires ReadableItems(params, ks, show)
    ensures ParamsOf(" " + SliceStr(Items(params, ks, show), 0, -2)) == map k | k in ks :: Str(Shown(params[k], show))
  {
    if |ks| == 0 {
      NoItemsReadBack(params, show);
      assert ks == [];
    } else {
      ItemsPairs(params, ks, show);
      CookedDict(params, ks, show);
    }
  }

  /**
   * `formatElement` read back by `str2dict`: the keyword, the type and, for
   * each written key, its value as the text it was written as.
   */
  lemma {:induction false} ElementLineParamsReadBack(kw: string, etype: string, params: map<string, Value>, ks: seq<string>, show: real -> string)
    requires Trimmed(Upper(kw)) && ':' !in Upper(kw) && ';' !in Upper(kw)
    requires Trimmed(Upper(etype)) && ':' !in Upper(etype) && ';' !in Upper(etype) && ',' !in Upper(etype)
    requires ReadableItems(params, ks, show)
    ensures Str2Dict(ElementLine(kw, etype, Items(params, ks, show)))
         == Some((Upper(kw), Element(Upper(etype), map k | k in ks :: Str(Shown(params[k], show)))))
  {
    ItemsLack(params, ks, show, ':');
    ItemsLack(params, ks, show, ';');
    ElementLineReadsBack(kw, etype, Items(params, ks, show));
    ItemsReadBack(params, ks, show);
  }

  // ------------------------------------------------------------------ reading a beamline statement back

  /** A name a beamline statement can list and read back: a word holding no separator the reader splits on. */
  predicate ListedName(n: string)
  {
    n != "" && NoSpace(n) && Plain(n) && '(' !in n && ')' !in n
  }

  lemma {:induction false} LowerListedName(n: string)
    requires ListedName(n)
    ensures ListedName(Lower(n))
  {
    LowerLacks(n, ',');
    LowerLacks(n, '=');
    LowerLacks(n, ':');
    LowerLacks(n, ';');
    LowerLacks(n, '"');
    LowerLacks(n, '\'');
    LowerLacks(n, '(');
    LowerLacks(n, ')');
    forall i | 0 <= i < |n| ensures !IsSpace(Lower(n)[i]) {
      assert Lower(n)[i] == LowerChar(n[i]);
    }
  }

  /** Lower-casing the list and blanking its commas joins the lower-cased names by two blanks. */
  lemma {:induction false} ListBlanked(names: seq<string>)
    requires forall i :: 0 <= i < |names| ==> ListedName(names[i])
    ensures ReplaceChar(Lower(Join(", ", names)), ',', ' ') == Join("  ", MapSeq(names, Lower))
    decreases |names|
  {
    var ws := MapSeq(names, Lower);
    if |names| == 1 {
      LowerLacks(names[0], ',');
      ReplaceCharAbsent(Lower(names[0]), ',', ' ');
    } else if |names| > 1 {
      var x, rest := names[0], Join(", ", names[1..]);
      assert Join(", ", names) == x + ", " + rest;
      LowerConcat(x + ", ", rest);
      LowerConcat(x, ", ");
      assert Lower(", ") == ", ";
      LowerLacks(x, ',');
      ReplaceCharConcat(Lower(x) + ", ", Lower(rest), ',', ' ');
      ReplaceCharConcat(Lower(x), ", ", ',', ' ');
      ReplaceCharAbsent(Lower(x), ',', ' ');
      assert ReplaceChar(", ", ',', ' ') == "  ";
      ListBlanked(names[1..]);
      assert MapSeq(names[1..], Lower) == ws[1..];
    }
  }

  /** Names joined by two blanks split back into the names. */
  lemma {:induction false} SplitWsWide(xs: seq<string>)
    requires Words(xs)
    ensures SplitWs(Join("  ", xs)) == xs
    decreases |xs|
  {
    if |xs| == 1 {
      SplitWsSingle(xs[0]);
    } else if |xs| > 1 {
      var rest := Join("  ", xs[1..]);
      WideCons(xs[0], rest);
      SplitWsWide(xs[1..]);
      assert [xs[0]] + xs[1..] == xs;
    }
  }

  /** A word followed by two blanks splits off as the first word. */
  lemma {:induction false} WideCons(x: string, rest: string)
    requires x != "" && NoSpace(x)
    ensures SplitWs(x + "  " + rest) == [x] + SplitWs(rest)
  {
    assert x + "  " + rest == x + (" " + (" " + rest));
    SplitWsWord(x, " " + (" " + rest));
    SplitWsLeadingSpace(" " + rest);
    SplitWsLeadingSpace(rest);
  }

  /** The list of a beamline statement, lower-cased with its commas blanked. */
  lemma {:induction false} BeamlineListRewritten(names: seq<string>)
    requires forall i :: 0 <= i < |names| ==> ListedName(names[i])
    ensures ReplaceChar(Lower(" (" + Join(", ", names) + ")"), ',', ' ') == " (" + Join("  ", MapSeq(names, Lower)) + ")"
  {
    var j := Join(", ", names);
    LowerConcat(" (" + j, ")");
    LowerConcat(" (", j);
    assert Lower(" (") == " (" && Lower(")") == ")";
    ReplaceCharConcat(" (" + Lower(j), ")", ',', ' ');
    ReplaceCharConcat(" (", Lower(j), ',', ' ');
    ReplaceCharAbsent(" (", ',', ' ');
    ReplaceCharAbsent(")", ',', ' ');
    ListBlanked(names);
  }

  /** The blanked list, lower-cased names and separators only, holds no character the reader splits on. */
  lemma {:induction false} BlankedListLacks(ws: seq<string>, c: char)
    requires forall i :: 0 <= i < |ws| ==> ListedName(ws[i])
    requires c in {',', ':', ';', '=', '"', '\''}
    ensures c !in " (" + Join("  ", ws) + ")"
  {
    JoinLacks("  ", ws, c);
    NotInConcat(c, " (", Join("  ", ws));
    NotInConcat(c, " (" + Join("  ", ws), ")");
  }

  /** Stripping the blanked list and cutting its parentheses leaves the names. */
  lemma {:induction false} StripParenList(w: string)
    ensures Strip(" (" + w + ")") == "(" + w + ")"
    ensures SliceStr("(" + w + ")", 1, -1) == w
  {
    ParenListPieces(w);
    StripBlankThen("(" + w + ")");
  }

  lemma {:induction false} ParenListPieces(w: string)
    ensures var q := "(" + w + ")";
            && " (" + w + ")" == " " + q && Trimmed(q) && SliceStr(q, 1, -1) == w
  {
    var q := "(" + w + ")";
    assert q[1..|q| - 1] == w;
  }

  /** One blank before a trimmed text is stripped off. */
  lemma {:induction false} StripBlankThen(q: string)
    requires Trimmed(q)
    ensures Strip(" " + q) == q
  {
    StripLeadingBlank(" " + q);
    assert (" " + q)[1..] == q;
    StripTrimmed(q);
  }

  lemma {:induction false} LowerPadRight(s: string, w: nat)
    ensures Lower(PadRight(s, w)) == PadRight(Lower(s), w)
  {
    if |s| < w {
      LowerConcat(s, Spaces(w - |s|));
      assert Lower(Spaces(w - |s|)) == Spaces(w - |s|);
    }
  }

  lemma {:induction false} LowerTrimmed(s: string)
    requires Trimmed(s)
    ensures Trimmed(Lower(s))
  {
    if s != "" {
      assert Lower(s)[0] == LowerChar(s[0]);
      assert Lower(s)[|s| - 1] == LowerChar(s[|s| - 1]);
    }
  }

  lemma {:induction false} UpperLower(s: string)
    ensures Upper(Lower(s)) == Upper(s)
  {
    assert forall i :: 0 <= i < |s| ==> UpperChar(LowerChar(s[i])) == UpperChar(s[i]);
  }

  /** The lower-cased, padded name of a beamline statement reads back as the upper-cased name. */
  lemma {:induction false} PaddedNameReadsBack(u: string)
    requires Trimmed(u) && Upper(u) == u
    ensures Upper(Strip(Lower(PadRight(u, 6)))) == u
  {
    LowerPadRight(u, 6);
    LowerTrimmed(u);
    StripPadRight(Lower(u), 6);
    UpperLower(u);
  }

  /** The beamline statement, rewritten: lower-cased, its type word marked and its list blanked. */
  lemma {:induction false} BeamlineTextMarked(bl: string, names: seq<string>)
    requires ':' !in Upper(bl)
    requires forall i :: 0 <= i < |names| ==> ListedName(names[i])
    ensures MarkBeamline(BeamlineText(bl, names))
         == Lower(PadRight(Upper(bl), 6)) + ": beamline,lattice=" + (" (" + Join("  ", MapSeq(names, Lower)) + ")")
  {
    var a := PadRight(Upper(bl), 6);
    var refs := " (" + Join(", ", names) + ")";
    BeamlineTextPieces(bl, names);
    PadRightChars(Upper(bl), 6, ':');
    LineTypeWord();
    MarkBeamlineTypeWord(a, " line ", refs);
    BeamlineListRewritten(names);
  }

  /** The beamline statement as its name, its type word ` line ` and its list. */
  lemma {:induction false} BeamlineTextPieces(bl: string, names: seq<string>)
    ensures BeamlineText(bl, names) == PadRight(Upper(bl), 6) + ":" + " line " + "=" + (" (" + Join(", ", names) + ")")
  {
  }

  /** The type word of the beamline statement is `line`. */
  lemma {:induction false} LineTypeWord()
    ensures '=' !in " line " && Strip(Lower(" line ")) == "line"
  {
    LineToken();
    StripKeyToken("line");
  }

  lemma {:induction false} LineToken()
    ensures KeyToken("line") == " line " && Lower(" line ") == " line " && '=' !in " line "
  {
    LowerNoCapitals(" line ");
  }

  /** A rewritten beamline statement over lower-cased names reads as a beamline record holding the parenthesised list. */
  lemma {:induction false} BlankedListReads(ln: string, ws: seq<string>)
    requires ':' !in ln
    requires forall i :: 0 <= i < |ws| ==> ListedName(ws[i])
    ensures Str2Dict(ln + ": beamline,lattice=" + (" (" + Join("  ", ws) + ")"))
         == Some((Upper(Strip(ln)), Element(BeamlineType, map[LatticeKey := Str("(" + Join("  ", ws) + ")")])))
  {
    var w := Join("  ", ws);
    var r := " (" + w + ")";
    BlankedListLacks(ws, ',');
    BlankedListLacks(ws, ':');
    BlankedListLacks(ws, ';');
    BlankedListLacks(ws, '=');
    BlankedListLacks(ws, '"');
    BlankedListLacks(ws, '\'');
    assert NonBlank(r) by {
      assert !IsSpace(r[1]);
    }
    MarkedReads(ln, r);
    StripParenList(w);
  }

  /**
   * `generateLatticeFile`'s beamline statement, rewritten and read back by
   * `getKwAsDict`'s `str2dict`, is a beamline record under the upper-cased name
   * whose references are the listed names, lower-cased, in order.
   */
  lemma {:induction false} BeamlineTextReadsBack(bl: string, names: seq<string>)
    requires Trimmed(Upper(bl)) && ':' !in Upper(bl)
    requires forall i :: 0 <= i < |names| ==> ListedName(names[i])
    ensures var r := Str2Dict(MarkBeamline(BeamlineText(bl, names)));
            && r.Some? && r.value.0 == Upper(bl) && r.value.1.Element? && r.value.1.etype == BeamlineType
            && BeamlineRefs(map[r.value.0 := r.value.1], bl) == Some(MapSeq(names, Lower))
  {
    var ws := MapSeq(names, Lower);
    forall i | 0 <= i < |ws| ensures ListedName(ws[i]) {
      LowerListedName(names[i]);
    }
    BeamlineTextMarked(bl, names);
    var ln := Lower(PadRight(Upper(bl), 6));
    PaddedName(bl);
    BlankedListReads(ln, ws);
    ListRefsRead(bl, ws);
  }

  /** The lower-cased padded name holds no `:` and strips back to the upper-cased name. */
  lemma {:induction false} PaddedName(bl: string)
    requires Trimmed(Upper(bl)) && ':' !in Upper(bl)
    ensures var ln := Lower(PadRight(Upper(bl), 6));
            ':' !in ln && Upper(Strip(ln)) == Upper(bl)
  {
    PadRightChars(Upper(bl), 6, ':');
    LowerLacks(PadRight(Upper(bl), 6), ':');
    UpperIdempotent(bl);
    PaddedNameReadsBack(Upper(bl));
  }

  /** A beamline record holding the parenthesised, blank-joined names reads back as those names. */
  lemma {:induction false} ListRefsRead(bl: string, ws: seq<string>)
    requires forall i :: 0 <= i < |ws| ==> ListedName(ws[i])
    ensures BeamlineRefs(map[Upper(bl) := Element(BeamlineType, map[LatticeKey := Str("(" + Join("  ", ws) + ")")])], bl) == Some(ws)
  {
    StripParenList(Join("  ", ws));
    SplitWsWide(ws);
  }
}
