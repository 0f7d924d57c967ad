/**
 * `madParser`: a MAD-8 deck read as lines. The beamline statement `idbl: LINE=(...)`
 * gives the list of references; each reference is looked up as the first line
 * that defines it, and that line becomes a dict of its type, its name and its
 * `key=value` parameters.
 */
module MadParser {
  import opened Wrappers
  import opened PyStr
  import opened PySeq

  /** An element dict: every value is kept as text. */
  type Params = map<string, string>

  // ------------------------------------------------------------------ the beamline statement

  /** `''.join(line.lower().strip().split())`: lower case, every blank removed. */
  function Squeeze(line: string): string
  {
    RemoveWs(Lower(line))
  }

  /** A line that, squeezed, starts with `idbl:line` (`idbl` already lower-cased). */
  predicate StartsLine(line: string, idbl: string)
  {
    StartsWith(Squeeze(line), idbl + ":line")
  }

  function StartsLineOf(idbl: string): string -> bool
  {
    line => StartsLine(line, idbl)
  }

  /** The index of the first line that starts the beamline, or the number of lines. */
  function LineIndex(lines: seq<string>, idbl: string): nat
  {
    FirstWhere(lines, StartsLineOf(idbl))
  }

  /** The references of a beamline line: `idbl:line=` and the parentheses dropped, split at `,`. */
  function RefsOf(line: string, idbl: string): (refs: seq<string>)
    ensures |refs| >= 1
    ensures forall i :: 0 <= i < |refs| ==> ',' !in refs[i] && '(' !in refs[i] && ')' !in refs[i]
  {
    var s := RemoveChar(RemoveChar(ReplaceAll(Squeeze(line), idbl + ":line=", ""), '('), ')');
    var refs := Split(s, ',');
    assert forall i :: 0 <= i < |refs| ==> forall x :: x in refs[i] ==> x in s by {
      SplitPieces(s, ',');
    }
    refs
  }

  /** The references of the first beamline statement; `None` when there is none. */
  function FindBeamline(lines: seq<string>, idbl: string): Option<seq<string>>
  {
    var k := LineIndex(lines, idbl);
    if k == |lines| then None else Some(RefsOf(lines[k], idbl))
  }

  // ------------------------------------------------------------------ the element statements

  /** A line that, lower-cased and trimmed, starts with `element:`. */
  predicate DefinesElement(line: string, element: string)
  {
    StartsWith(Strip(Lower(line)), element + ":")
  }

  function DefinesOf(element: string): string -> bool
  {
    line => DefinesElement(line, element)
  }

  /** The index of the first line that defines `element`, or the number of lines. */
  function DefinitionIndex(lines: seq<string>, element: string): nat
  {
    FirstWhere(lines, DefinesOf(element))
  }

  predicate Defined(lines: seq<string>, element: string)
  {
    DefinitionIndex(lines, element) < |lines|
  }

  /** The squeezed first definition of `element`. */
  function ElementLine(lines: seq<string>, element: string): string
    requires Defined(lines, element)
  {
    Lower(RemoveWs(Strip(Lower(lines[DefinitionIndex(lines, element)]))))
  }

  /** `s.find(c)`: the index of the first `c`, or -1. */
  function FindChar(s: string, c: char): (r: int)
    ensures -1 <= r < |s|
    ensures r == -1 <==> c !in s
    ensures r >= 0 ==> s[r] == c && c !in s[..r]
  {
    var k := IndexOfChar(s, c);
    assert c !in s[..k];
    if k == |s| then -1 else k
  }

  /**
   * The type slice as written, `line[idx1 + 1:idx2]`: when there is no `,` the
   * stop index is -1, and the slice loses the line's last character.
   */
  function TypeAsWritten(line: string): string
  {
    SliceStr(line, FindChar(line, ':') + 1, FindChar(line, ','))
  }

  /** The type as intended: the text after the first `:`, up to the first `,` or the end of the line. */
  function TypeOf(line: string): string
  {
    var i := FindChar(line, ':');
    var j := FindChar(line, ',');
    SliceStr(line, i + 1, if j < 0 then |line| else j)
  }

  /** `=` and `,` read as blanks. */
  function Blanked(s: string): string
  {
    ReplaceChar(ReplaceChar(s, '=', ' '), ',', ' ')
  }

  /** The text after the first `,` (the whole line when there is none), blanked and split into words. */
  function Tokens(line: string): seq<string>
  {
    SplitWs(Blanked(SliceStr(line, FindChar(line, ',') + 1, |line|)))
  }

  /**
   * The dict of an element line: the tokens paired as key and value, then the
   * type and the name, which win over a parameter with the same key.
   */
  function ParseElement(line: string, element: string): Params
  {
    DictOf(Pairs(Tokens(line)))["type" := TypeOf(line)]["ID" := element]
  }

  /** The dict holds the parameter keys, `type` and `ID`; every other key keeps its parameter value. */
  lemma {:induction false} ParseElementFields(line: string, element: string)
    ensures var r := ParseElement(line, element);
      var params := DictOf(Pairs(Tokens(line)));
      r.Keys == params.Keys + {"type", "ID"} &&
      r["type"] == TypeOf(line) && r["ID"] == element &&
      forall k :: k in r && k != "type" && k != "ID" ==> r[k] == params[k]
  {
  }

  // ------------------------------------------------------------------ madParser

  /** Every reference of the beamline, when there is one, is defined by some line. */
  predicate AllDefined(lines: seq<string>, idbl: string)
  {
    var refs := FindBeamline(lines, Lower(idbl));
    refs.Some? ==> forall i :: 0 <= i < |refs.value| ==> Defined(lines, refs.value[i])
  }

  /**
   * The dict of a reference, read from its first definition; a reference with
   * no definition (for which `madParser` never returns) has none.
   */
  function RefDict(lines: seq<string>, ref: string): Params
  {
    if Defined(lines, ref) then ParseElement(ElementLine(lines, ref), ref) else map[]
  }

  function RefDictOf(lines: seq<string>): string -> Params
  {
    ref => RefDict(lines, ref)
  }

  /** The dicts of the first definitions of `refs`, in order. */
  function Dicts(lines: seq<string>, refs: seq<string>): seq<Params>
    requires forall i :: 0 <= i < |refs| ==> Defined(lines, refs[i])
  {
    MapSeq(refs, RefDictOf(lines))
  }

  /** `madParser(lines, idbl)`; `None` where the source reports that the beamline is not found and exits. */
  function MadParse(lines: seq<string>, idbl: string): (r: Option<seq<Params>>)
    requires AllDefined(lines, idbl)
  {
    match FindBeamline(lines, Lower(idbl))
    case None => None
    case Some(refs) => Some(Dicts(lines, refs))
  }

  /** The first loop of `madParser`: the first line that starts the beamline. */
  method FindLine(lines: seq<string>, id: string) returns (n: nat)
    ensures n == LineIndex(lines, id)
  {
    n := 0;
    while n < |lines| && !StartsLine(lines[n], id)
      invariant n <= LineIndex(lines, id)
    {
      n := n + 1;
    }
  }

  /**
   * The inner loop of `madParser`: lines read from the top of the file, lower-cased
   * and trimmed, until one starts with `element:`.
   */
  method ReadDefinition(lines: seq<string>, element: string) returns (line: string)
    requires Defined(lines, element)
    ensures line == Strip(Lower(lines[DefinitionIndex(lines, element)]))
  {
    var pos := 0;
    line := Strip(Lower(lines[pos]));
    while !StartsWith(line, element + ":")
      invariant pos <= DefinitionIndex(lines, element) && line == Strip(Lower(lines[pos]))
      decreases DefinitionIndex(lines, element) - pos
    {
      assert !DefinesOf(element)(lines[pos]);
      FirstWhereNext(lines, DefinesOf(element), pos);
      pos := pos + 1;
      line := Strip(Lower(lines[pos]));
    }
    assert DefinesOf(element)(lines[pos]);
    FirstWhereFound(lines, DefinesOf(element), pos);
  }

  /** The first loop of `madParser` and the split of the line it stops at. */
  method ReadBeamline(lines: seq<string>, id: string) returns (beamline: Option<seq<string>>)
    ensures beamline == FindBeamline(lines, id)
  {
    var n := FindLine(lines, id);
    if n == |lines| {
      return None;
    }
    beamline := Some(RefsOf(lines[n], id));
  }

  /** The second loop of `madParser`: one dict per reference, in order. */
  method ParseRefs(lines: seq<string>, refs: seq<string>) returns (elementlist: seq<Params>)
    requires forall j :: 0 <= j < |refs| ==> Defined(lines, refs[j])
    ensures elementlist == Dicts(lines, refs)
  {
    elementlist := [];
    for i := 0 to |refs|
      invariant elementlist == Dicts(lines, refs[..i])
    {
      var element := refs[i];
      var line := ReadDefinition(lines, element);
      var elementline := Lower(RemoveWs(line));
      assert elementline == ElementLine(lines, element);
      MapSeqSnoc(refs, RefDictOf(lines), i);
      elementlist := elementlist + [ParseElement(elementline, element)];
    }
    assert refs[..|refs|] == refs;
  }

  /**
   * `madParser`: the beamline is the first line that starts it, and each
   * reference's dict comes from the first line that defines it, searched from
   * the top of the file every time.
   */
  method MadParser(lines: seq<string>, idbl: string) returns (r: Option<seq<Params>>)
    requires AllDefined(lines, idbl)
    ensures r == MadParse(lines, idbl)
  {
    var beamline := ReadBeamline(lines, Lower(idbl));
    if beamline.None? {
      return None;
    }
    var elementlist := ParseRefs(lines, beamline.value);
    r := Some(elementlist);
  }

  // ------------------------------------------------------------------ what madParser returns

  /** Each dict is named after its reference and typed from the reference's first definition. */
  lemma {:induction false} DictsFields(lines: seq<string>, refs: seq<string>)
    requires forall i :: 0 <= i < |refs| ==> Defined(lines, refs[i])
    ensures |Dicts(lines, refs)| == |refs|
    ensures forall i :: 0 <= i < |refs| ==>
      Dicts(lines, refs)[i]["ID"] == refs[i] && Dicts(lines, refs)[i]["type"] == TypeOf(ElementLine(lines, refs[i]))
  {
    forall i | 0 <= i < |refs|
      ensures Dicts(lines, refs)[i]["ID"] == refs[i] && Dicts(lines, refs)[i]["type"] == TypeOf(ElementLine(lines, refs[i]))
    {
      assert Dicts(lines, refs)[i] == RefDict(lines, refs[i]);
      RefDictFields(lines, refs[i]);
    }
  }

  lemma {:induction false} RefDictFields(lines: seq<string>, ref: string)
    requires Defined(lines, ref)
    ensures RefDict(lines, ref)["ID"] == ref && RefDict(lines, ref)["type"] == TypeOf(ElementLine(lines, ref))
  {
    ParseElementFields(ElementLine(lines, ref), ref);
  }

  /**
   * `madParser` finds no beamline exactly when no line starts one; otherwise it
   * returns one dict per reference of the first such line, named after the
   * reference and typed from the reference's first definition.
   */
  lemma {:induction false} MadParseShape(lines: seq<string>, idbl: string)
    requires AllDefined(lines, idbl)
    ensures MadParse(lines, idbl).None? <==> forall k :: 0 <= k < |lines| ==> !StartsLine(lines[k], Lower(idbl))
    ensures MadParse(lines, idbl).Some? ==>
      var refs := RefsOf(lines[LineIndex(lines, Lower(idbl))], Lower(idbl));
      var r := MadParse(lines, idbl).value;
      |r| == |refs| &&
      forall i :: 0 <= i < |refs| ==>
        Defined(lines, refs[i]) && r[i]["ID"] == refs[i] && r[i]["type"] == TypeOf(ElementLine(lines, refs[i]))
  {
    var id := Lower(idbl);
    var k := LineIndex(lines, id);
    if k < |lines| {
      assert StartsLineOf(id)(lines[k]);
      var refs := RefsOf(lines[k], id);
      assert MadParse(lines, idbl) == Some(Dicts(lines, refs));
      DictsFields(lines, refs);
    } else {
      forall j | 0 <= j < |lines| ensures !StartsLine(lines[j], id) {
        assert !StartsLineOf(id)(lines[j]);
      }
    }
  }

  /** A beamline statement as it reads once squeezed: `idbl:line=(a,b,c)`. */
  function LineText(idbl: string, refs: seq<string>): string
  {
    idbl + ":line=(" + Join(",", refs) + ")"
  }

  /** A reference the beamline split keeps whole. */
  predicate RefName(s: string)
  {
    ',' !in s && '(' !in s && ')' !in s && '=' !in s
  }

  /** Dropping the parentheses around a text that has none inside. */
  lemma {:induction false} RemoveParens(body: string)
    requires '(' !in body && ')' !in body
    ensures RemoveChar(RemoveChar("(" + body + ")", '('), ')') == body
  {
    var tail := body + ")";
    assert "(" + body + ")" == "(" + tail;
    RemoveCharConcat("(", tail, '(');
    assert RemoveChar("(", '(') == "";
    assert '(' !in tail;
    RemoveAbsent(tail, '(');
    assert RemoveChar("(" + tail, '(') == tail;
    RemoveCharConcat(body, ")", ')');
    RemoveAbsent(body, ')');
    assert RemoveChar(")", ')') == "";
    assert RemoveChar(tail, ')') == body + "";
  }

  /** A line that squeezes to a beamline statement starts the beamline, and its references are read back. */
  lemma {:induction false} RefsOfLineText(line: string, idbl: string, refs: seq<string>)
    requires Squeeze(line) == LineText(idbl, refs)
    requires |refs| >= 1 && forall i :: 0 <= i < |refs| ==> RefName(refs[i])
    ensures StartsLine(line, idbl)
    ensures RefsOf(line, idbl) == refs
  {
    var pat := idbl + ":line=";
    var body := Join(",", refs);
    var rest := "(" + body + ")";
    assert Squeeze(line) == pat + rest;
    assert (pat + rest)[..|idbl + ":line"|] == idbl + ":line";
    JoinLacks(",", refs, '=');
    JoinLacks(",", refs, '(');
    JoinLacks(",", refs, ')');
    assert pat[|pat| - 1] == '=';
    FindMissing(rest, pat, '=');
    ReplacePrefix(pat, rest);
    RemoveParens(body);
    SplitJoin(refs, ',');
  }

  // ------------------------------------------------------------------ the element statement

  lemma {:induction false} FindCharAt(s: string, c: char, k: nat)
    requires k < |s| && s[k] == c && c !in s[..k]
    ensures FindChar(s, c) == k
  {
    IndexOfCharAt(s, c, k);
  }

  /** The first `c` of `a + c + b`, when `a` has none, is the one just after `a`. */
  lemma {:induction false} FindCharAfter(a: string, c: char, b: string)
    requires c !in a
    ensures FindChar(a + [c] + b, c) == |a|
  {
    var s := a + [c] + b;
    assert s[..|a|] == a;
    FindCharAt(s, c, |a|);
  }

  lemma {:induction false} SliceAfter(a: string, c: char, b: string)
    ensures SliceStr(a + [c] + b, |a| + 1, |a + [c] + b|) == b
  {
    assert (a + [c] + b)[|a| + 1..] == b;
  }

  /** Blank-free text without `=` or `,`. */
  predicate Word(s: string)
  {
    NoSpace(s) && '=' !in s && ',' !in s
  }

  /** An element statement as it reads once squeezed: `name:type` or `name:type,k1=v1,k2=v2`. */
  function ElementText(element: string, etype: string, ps: seq<(string, string)>): string
  {
    element + ":" + etype + (if |ps| == 0 then "" else "," + KeyValueText(ps))
  }

  lemma {:induction false} BlankedConcat(a: string, b: string)
    ensures Blanked(a + b) == Blanked(a) + Blanked(b)
  {
    ReplaceCharConcat(a, b, '=', ' ');
    ReplaceCharConcat(ReplaceChar(a, '=', ' '), ReplaceChar(b, '=', ' '), ',', ' ');
  }

  lemma {:induction false} BlankedWord(s: string)
    requires '=' !in s && ',' !in s
    ensures Blanked(s) == s
  {
    ReplaceCharAbsent(s, '=', ' ');
    ReplaceCharAbsent(s, ',', ' ');
  }

  /** Blanking `k1=v1,k2=v2` gives the keys and values joined by blanks. */
  lemma {:induction false} BlankedKeyValueText(ps: seq<(string, string)>)
    requires |ps| >= 1 && forall i :: 0 <= i < |ps| ==> Word(ps[i].0) && Word(ps[i].1)
    ensures Blanked(KeyValueText(ps)) == Join(" ", Interleaved(ps))
  {
    var k, v := ps[0].0, ps[0].1;
    BlankedConcat(k + "=", v);
    BlankedConcat(k, "=");
    BlankedWord(k);
    BlankedWord(v);
    assert Blanked("=") == " ";
    if |ps| == 1 {
      assert KeyValueText(ps) == k + "=" + v;
      assert Interleaved(ps) == [k, v];
    } else {
      KeyValueTextCons(ps);
      BlankedKeyValueText(ps[1..]);
      BlankedConcat(k + "=" + v + ",", KeyValueText(ps[1..]));
      BlankedConcat(k + "=" + v, ",");
      assert Blanked(",") == " ";
      InterleavedCons(" ", ps);
    }
  }

  /** Interleaving non-empty words gives words. */
  lemma {:induction false} InterleavedWords(ps: seq<(string, string)>)
    requires forall i :: 0 <= i < |ps| ==> ps[i].0 != "" && ps[i].1 != "" && NoSpace(ps[i].0) && NoSpace(ps[i].1)
    ensures Words(Interleaved(ps))
  {
    var xs := Interleaved(ps);
    forall j | 0 <= j < |xs| ensures xs[j] != "" && NoSpace(xs[j]) {
      assert xs[j] == ps[j / 2].0 || xs[j] == ps[j / 2].1;
    }
  }

  /** The parameter text `k1=v1,k2=v2` is split back into its pairs. */
  lemma {:induction false} TokensOfKeyValueText(ps: seq<(string, string)>)
    requires |ps| >= 1
    requires forall i :: 0 <= i < |ps| ==> ps[i].0 != "" && ps[i].1 != "" && Word(ps[i].0) && Word(ps[i].1)
    ensures Pairs(SplitWs(Blanked(KeyValueText(ps)))) == ps
  {
    BlankedKeyValueText(ps);
    InterleavedWords(ps);
    SplitWsJoin(Interleaved(ps));
    PairsInterleaved(ps);
  }

  /** The type of an element statement is the text between its `:` and its first `,`. */
  lemma {:induction false} TypeOfElementText(element: string, etype: string, ps: seq<(string, string)>)
    requires ':' !in element && ',' !in element && ',' !in etype
    ensures TypeOf(ElementText(element, etype, ps)) == etype
  {
    var line := ElementText(element, etype, ps);
    var head := element + ":" + etype;
    if |ps| == 0 {
      assert line == element + [':'] + etype;
      FindCharAfter(element, ':', etype);
      SliceAfter(element, ':', etype);
      assert ',' !in line;
    } else {
      var text := KeyValueText(ps);
      assert ',' !in head;
      assert line == element + [':'] + (etype + "," + text);
      FindCharAfter(element, ':', etype + "," + text);
      assert line == head + [','] + text;
      FindCharAfter(head, ',', text);
      assert line[|element| + 1..|head|] == etype;
    }
  }

  /** The tokens of an element statement pair up into its parameters. */
  lemma {:induction false} TokensOfElementText(element: string, etype: string, ps: seq<(string, string)>)
    requires Word(element) && Word(etype)
    requires forall i :: 0 <= i < |ps| ==> ps[i].0 != "" && ps[i].1 != "" && Word(ps[i].0) && Word(ps[i].1)
    ensures Pairs(Tokens(ElementText(element, etype, ps))) == ps
  {
    if |ps| == 0 {
      assert ElementText(element, etype, ps) == element + ":" + etype;
      TokensOfBare(element, etype);
    } else {
      var text := KeyValueText(ps);
      assert ElementText(element, etype, ps) == element + ":" + etype + "," + text;
      TokensOfKeyValueText(ps);
      TokensAfterComma(element, etype, text);
    }
  }

  /** A statement with no parameters is one token, and pairs up into nothing. */
  lemma {:induction false} TokensOfBare(element: string, etype: string)
    requires Word(element) && Word(etype)
    ensures Pairs(Tokens(element + ":" + etype)) == []
  {
    var line := element + ":" + etype;
    assert ',' !in line && '=' !in line;
    assert NoSpace(line) by {
      assert forall i :: 0 <= i < |line| ==> line[i] == ':' || line[i] in element || line[i] in etype;
    }
    assert SliceStr(line, 0, |line|) == line;
    BlankedWord(line);
    SplitWsSingle(line);
  }

  /** The tokens of a statement with parameters come from the text after its first `,`. */
  lemma {:induction false} TokensAfterComma(element: string, etype: string, text: string)
    requires ',' !in element && ',' !in etype
    ensures Tokens(element + ":" + etype + "," + text) == SplitWs(Blanked(text))
  {
    var head := element + ":" + etype;
    assert ',' !in head;
    assert element + ":" + etype + "," + text == head + [','] + text;
    FindCharAfter(head, ',', text);
    SliceAfter(head, ',', text);
  }

  /**
   * The dict of an element statement written from a name, a type and a list
   * of pairs: the pairs as `dict` collects them, then the type and the name.
   */
  lemma {:induction false} ParseElementReadsBack(element: string, etype: string, ps: seq<(string, string)>)
    requires Word(element) && ':' !in element && Word(etype)
    requires forall i :: 0 <= i < |ps| ==> ps[i].0 != "" && ps[i].1 != "" && Word(ps[i].0) && Word(ps[i].1)
    ensures ParseElement(ElementText(element, etype, ps), element) == DictOf(ps)["type" := etype]["ID" := element]
  {
    TokensOfElementText(element, etype, ps);
    TypeOfElementText(element, etype, ps);
  }

  /**
   * The type slice as written differs from the intended one exactly when the
   * statement has no `,` and something follows its first `:` (or, with no `:`,
   * the line is not empty).
   */
  lemma {:induction false} TypeAsWrittenDiffers(line: string)
    ensures TypeAsWritten(line) != TypeOf(line) <==> ',' !in line && FindChar(line, ':') + 1 < |line|
  {
    var i := FindChar(line, ':');
    if ',' !in line && i + 1 < |line| {
      assert |TypeAsWritten(line)| == |line| - 1 - (i + 1);
      assert |TypeOf(line)| == |line| - (i + 1);
    }
  }

  /** A statement with no parameters, `name:type`, loses the last letter of its type. */
  lemma {:induction false} TypeAsWrittenDropsLast(element: string, etype: string)
    requires ':' !in element && ',' !in element && ',' !in etype && |etype| >= 1
    ensures TypeAsWritten(element + ":" + etype) == etype[..|etype| - 1]
    ensures TypeOf(element + ":" + etype) == etype
  {
    var line := element + ":" + etype;
    assert line[..|element|] == element;
    FindCharAt(line, ':', |element|);
    assert ',' !in line by {
      assert forall x :: x in line ==> x == ':' || x in element || x in etype;
    }
    assert line[|element| + 1..] == etype;
    assert line[|element| + 1..|line| - 1] == etype[..|etype| - 1];
  }

  /** `m1: marker` is read as type `marke`. */
  lemma {:induction false} MarkerTypeAsWritten()
    ensures TypeAsWritten("m1:marker") == "marke"
    ensures TypeOf("m1:marker") == "marker"
  {
    assert "m1:marker" == "m1" + ":" + "marker";
    assert ':' !in "m1" && ',' !in "m1" && ',' !in "marker";
    TypeAsWrittenDropsLast("m1", "marker");
    assert "marker"[..5] == "marke";
  }
}
