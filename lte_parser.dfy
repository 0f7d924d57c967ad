/**
 * `LteParser`: statements of an elegant lattice file turned into namespace records.
 * The file is given as its sequence of lines; the parser object's `confstr` and
 * `confdict` attributes are the results returned here.
 */
module LteParser {
  import opened Wrappers
  import opened PyStr
  import opened PySeq
  import opened LatticeData

  // ------------------------------------------------------------------ str2dict

  /** `t.isspace() or t == ''` */
  predicate Blank(t: string)
  {
    forall i :: 0 <= i < |t| ==> IsSpace(t[i])
  }

  /** `.replace('"', '').replace("'", '')` */
  function Unquote(v: string): (r: string)
    ensures '"' !in r && '\'' !in r
    ensures forall x :: x in r ==> x in v
  {
    RemoveChar(RemoveChar(v, '"'), '\'')
  }

  /** The tokens `str2dict` keeps. */
  predicate NonBlank(t: string)
  {
    !Blank(t)
  }

  /** The key and value tokens of a parameter tail: `,` read as `=`, split on `=`, blank tokens dropped. */
  function ParamTokens(tail: string): (r: seq<string>)
    ensures forall i :: 0 <= i < |r| ==> !Blank(r[i]) && '=' !in r[i]
  {
    var ts := Filter(Split(ReplaceChar(tail, ',', '='), '='), NonBlank);
    assert forall i :: 0 <= i < |ts| ==> ts[i] in ts;
    ts
  }

  /** One key/value pair: both trimmed, the value unquoted. */
  function Cook(p: (string, string)): (string, Value)
  {
    (Strip(p.0), Str(Unquote(Strip(p.1))))
  }

  function ParamPairs(tail: string): seq<(string, Value)>
  {
    var ps := Pairs(ParamTokens(tail));
    seq(|ps|, i requires 0 <= i < |ps| => Cook(ps[i]))
  }

  /** `dict(zip(ks, vs))` over the tokens of a tail; a later key overrides an earlier one. */
  function ParamsOf(tail: string): map<string, Value>
  {
    DictOf(ParamPairs(tail))
  }

  /**
   * `str2dict`: a statement `name : type, k = v, ...` as the pair (NAME, record).
   * `None` stands for the IndexError of a statement without `:`.
   */
  function Str2Dict(raw: string): (r: Option<(string, Entry)>)
    ensures r.None? <==> ':' !in raw
    ensures r.Some? ==> r.value.0 == Upper(Strip(raw[..IndexOfChar(raw, ':')]))
    ensures r.Some? ==> !r.value.1.PrefixLines? && Trimmed(r.value.1.etype)
  {
    var sp1 := Split(raw, ':');
    if |sp1| < 2 then None
    else Some((Upper(Strip(sp1[0])), Record(sp1[1])))
  }

  /** The record of a descriptor `type, k = v, ...`: cut at its first `,` (read as `;;`). */
  function Record(desc: string): (e: Entry)
    ensures !e.PrefixLines? && Trimmed(e.etype)
  {
    var sp2 := SplitOn(ReplaceFirst(desc, ",", ";;"), ";;");
    var etype := Strip(sp2[0]);
    if |sp2| < 2 then TypeOnly(etype) else Element(etype, ParamsOf(sp2[1]))
  }

  /** The text between the first and the second `:` of a statement. */
  function Descriptor(raw: string): (d: string)
    ensures ':' !in d
    ensures forall x :: x in d ==> x in raw
  {
    var i := IndexOfChar(raw, ':');
    if i == |raw| then ""
    else
      var rest := raw[i + 1..];
      var d := rest[..IndexOfChar(rest, ':')];
      assert forall x :: x in d ==> x in rest;
      assert forall x :: x in rest ==> x in raw;
      d
  }

  lemma {:induction false} SplitOnAbsent(s: string, pat: string)
    requires |pat| > 0 && pat[0] !in s
    ensures SplitOn(s, pat) == [s]
  {
    FindAbsent(s, pat);
  }

  /** The first two `:`-pieces of a statement are the text before the first `:` and the descriptor. */
  lemma {:induction false} SplitColon(raw: string)
    requires ':' in raw
    ensures var sp := Split(raw, ':');
            |sp| >= 2 && sp[0] == raw[..IndexOfChar(raw, ':')] && sp[1] == Descriptor(raw)
  {
    var i := IndexOfChar(raw, ':');
    var rest := raw[i + 1..];
    assert raw == raw[..i] + [':'] + rest;
    SplitFirst(raw[..i], ':', rest);
  }

  lemma {:induction false} RecordNoComma(d: string)
    requires ';' !in d && ',' !in d
    ensures Record(d) == TypeOnly(Strip(d))
  {
    FindAbsent(d, ",");
    SplitOnAbsent(d, ";;");
  }

  lemma {:induction false} SplitAtComma(d: string, c: nat)
    requires ';' !in d && c < |d| && ',' !in d[..c] && d[c] == ','
    ensures SplitOn(ReplaceFirst(d, ",", ";;"), ";;") == [d[..c], d[c + 1..]]
  {
    assert At(d, c, ",") by { assert d[c..c + 1] == [d[c]]; }
    FindFirstAt(d, c, ",");
    var t := d[..c] + ";;" + d[c + 1..];
    assert ReplaceFirst(d, ",", ";;") == t;
    assert t[..c] == d[..c];
    assert At(t, c, ";;") by { assert t[c..c + 2] == ";;"; }
    FindFirstAt(t, c, ";;");
    assert t[c + 2..] == d[c + 1..];
    assert ';' !in d[c + 1..] by { assert forall x :: x in d[c + 1..] ==> x in d; }
    SplitOnAbsent(d[c + 1..], ";;");
  }

  /**
   * The record `e` of descriptor `d`: the type is the trimmed text before the first
   * `,`; a bare type exactly when there is no `,`; otherwise the parameters of the
   * text after it.
   */
  ghost predicate Shaped(d: string, e: Entry)
  {
    var c := IndexOfChar(d, ',');
    && !e.PrefixLines? && e.etype == Strip(d[..c])
    && (e.TypeOnly? <==> c == |d|)
    && (e.Element? ==> e.params == ParamsOf(d[c + 1..]))
  }

  /** The type/parameter split of a descriptor without `;`: at its first `,`, if any. */
  lemma {:induction false} RecordShape(d: string)
    requires ';' !in d
    ensures Shaped(d, Record(d))
  {
    var c := IndexOfChar(d, ',');
    if c == |d| {
      RecordNoComma(d);
      assert d[..c] == d;
    } else {
      SplitAtComma(d, c);
      var sp := SplitOn(ReplaceFirst(d, ",", ";;"), ";;");
      assert |sp| == 2 && sp[0] == d[..c] && sp[1] == d[c + 1..];
      assert Record(d) == Element(Strip(d[..c]), ParamsOf(d[c + 1..]));
    }
  }

  /**
   * For a statement without `;`: the type is the trimmed descriptor text before its
   * first `,`; the record is a bare type exactly when the descriptor has no `,`,
   * and otherwise holds the parameters of the text after that `,`.
   */
  lemma {:induction false} Str2DictShape(raw: string)
    requires ':' in raw && ';' !in raw
    ensures Str2Dict(raw).Some? && Shaped(Descriptor(raw), Str2Dict(raw).value.1)
  {
    Str2DictRecord(raw);
    RecordShape(Descriptor(raw));
  }

  /** A statement with a `:` reads as the record of its descriptor. */
  lemma {:induction false} Str2DictRecord(raw: string)
    requires ':' in raw && ';' !in raw
    ensures Str2Dict(raw).Some? && Str2Dict(raw).value.1 == Record(Descriptor(raw))
    ensures ';' !in Descriptor(raw)
  {
    SplitColon(raw);
  }

  // ------------------------------------------------------------------ getKw

  /** `' '.join(line.strip().split())`: runs of blanks collapsed, ends trimmed. */
  function Normalize(raw: string): string
  {
    Join(" ", SplitWs(raw))
  }

  lemma {:induction false} NormalizeNonEmpty(raw: string)
    requires Strip(raw) != ""
    ensures Normalize(raw) != ""
  {
    assert Strip(raw) == TrimRight(TrimLeft(raw));
    SplitWsNonEmpty(raw);
    assert SplitWs(raw)[0] != "";
  }

  /** A line `getKw` does not look at: blank, or a `!` comment once normalised. */
  predicate Skipped(raw: string)
  {
    Strip(raw) == "" || StartsWith(Normalize(raw), "!")
  }

  /** A normalised line that starts the definition of the lower-cased keyword `ikw`. */
  predicate Defines(l: string, ikw: string)
  {
    StartsWith(Lower(l), ikw + " :") || StartsWith(Lower(l), ikw + ":")
  }

  /** A raw file line that defines `ikw`. */
  predicate DefinesLine(raw: string, ikw: string)
  {
    !Skipped(raw) && Defines(Normalize(raw), ikw)
  }

  /**
   * The scanner state of `getKw` after a prefix of the file: the collected lines
   * (`None` while `conflist` is unbound), `appendflag`, and whether
   * `line_continue_flag` is `&`.
   */
  datatype KwScan = KwScan(conf: Option<seq<string>>, append: bool, cont: bool)

  const Start := KwScan(None, false, false)

  /** One loop iteration of `getKw`. */
  function Step(ikw: string, st: KwScan, raw: string): KwScan
  {
    if Skipped(raw) then st
    else
      NormalizeNonEmpty(raw);
      var l := Normalize(raw);
      var d := Defines(l, ikw);
      var conf :=
        if d then Some([l])
        else if st.append && st.cont && st.conf.Some? then Some(st.conf.value + [l])
        else st.conf;
      var cont := l[|l| - 1] == '&';
      KwScan(conf, (d || st.append) && cont, cont)
  }

  /** The scanner state after the given lines. */
  function Scan(ikw: string, lines: seq<string>): KwScan
  {
    if |lines| == 0 then Start else Step(ikw, Scan(ikw, lines[..|lines| - 1]), lines[|lines| - 1])
  }

  /**
   * `getKw`'s rewrite of a beamline statement `bl: line=(a, b)` into
   * `bl: beamline,lattice=(a  b)`, as written: it fires when `line` occurs anywhere
   * before the first `=`, and rewrites the LAST `line` of the lower-cased text.
   */
  function MarkBeamlineAsWritten(s: string): string
  {
    var low := Lower(s);
    if Contains(Split(low, '=')[0], "line")
    then Reverse(ReplaceFirst(Reverse(ReplaceChar(low, ',', ' ')), "enil", "ecittal,enilmaeb"))
    else s
  }

  /**
   * The rewrite as intended: only a statement whose type word (between the first
   * `:` and the first `=`) is `line` is marked as a beamline, and its name is kept.
   */
  function MarkBeamline(s: string): (r: string)
    ensures s != "" ==> r != ""
  {
    var low := Lower(s);
    var i := IndexOfChar(low, ':');
    if i == |low| then s else MarkTyped(s, low, i)
  }

  /** The rewrite past the first `:` (at `i` in the lower-cased `low`), decided by the type word. */
  function MarkTyped(s: string, low: string, i: nat): (r: string)
    requires i < |low|
    ensures s != "" ==> r != ""
  {
    var after := low[i + 1..];
    var j := IndexOfChar(after, '=');
    if Strip(after[..j]) != "line" then s
    else low[..i + 1] + " beamline,lattice" + ReplaceChar(after[j..], ',', ' ')
  }

  /** The configuration string of the final scanner state: `''` when the keyword was never defined. */
  function Finish(st: KwScan): string
  {
    if st.conf.None? then ""
    else MarkBeamline(ReplaceChar(Join("", st.conf.value), '&', ','))
  }

  /** `getKw(kw).confstr` */
  function KwConf(lines: seq<string>, kw: string): string
  {
    Finish(Scan(Lower(kw), lines))
  }

  /** The body of `getKw`'s loop: one file line read into the scanner variables. */
  method ReadLine(ikw: string, raw: string, confList: Option<seq<string>>, appendFlag: bool, contFlag: bool)
    returns (confList': Option<seq<string>>, appendFlag': bool, contFlag': bool)
    ensures KwScan(confList', appendFlag', contFlag') == Step(ikw, KwScan(confList, appendFlag, contFlag), raw)
  {
    confList', appendFlag', contFlag' := confList, appendFlag, contFlag;
    if Strip(raw) == "" {
      return;
    }
    var line := Normalize(raw);
    if StartsWith(line, "!") {
      return;
    }
    StepUnfold(ikw, KwScan(confList, appendFlag, contFlag), raw);
    if Defines(line, ikw) {
      confList' := Some([line]);
      appendFlag' := true;
    } else if appendFlag && contFlag && confList.Some? {
      confList' := Some(confList.value + [line]);
    }
    contFlag' := line[|line| - 1] == '&';
    if !contFlag' {
      appendFlag' := false;
    }
  }

  /** `getKw`: the definition of `kw` with its `&`-continued lines joined. */
  method GetKw(lines: seq<string>, kw: string) returns (confStr: string)
    ensures confStr == KwConf(lines, kw)
  {
    var ikw := Lower(kw);
    var confList: Option<seq<string>> := None;
    var appendFlag := false;
    var contFlag := false;
    for n := 0 to |lines|
      invariant Scan(ikw, lines[..n]) == KwScan(confList, appendFlag, contFlag)
    {
      assert lines[..n + 1][..n] == lines[..n];
      confList, appendFlag, contFlag := ReadLine(ikw, lines[n], confList, appendFlag, contFlag);
    }
    assert lines[..|lines|] == lines;
    if confList.None? {
      confStr := "";
    } else {
      confStr := MarkBeamline(ReplaceChar(Join("", confList.value), '&', ','));
    }
  }

  /** `getKwAsDict`: the parsed definition; `None` when `str2dict` raises. */
  function KwAsDict(lines: seq<string>, kw: string): Option<(string, Entry)>
  {
    Str2Dict(KwConf(lines, kw))
  }

  /** One iteration on a line that is looked at. */
  lemma {:induction false} StepUnfold(ikw: string, st: KwScan, raw: string)
    requires !Skipped(raw)
    ensures var l := Normalize(raw);
            var d := Defines(l, ikw);
            && l != ""
            && Step(ikw, st, raw) == KwScan(
                 if d then Some([l])
                 else if st.append && st.cont && st.conf.Some? then Some(st.conf.value + [l])
                 else st.conf,
                 (d || st.append) && l[|l| - 1] == '&',
                 l[|l| - 1] == '&')
  {
    NormalizeNonEmpty(raw);
  }

  /** A defining line restarts the collected list with itself. */
  lemma {:induction false} StepDefining(ikw: string, st: KwScan, raw: string)
    requires DefinesLine(raw, ikw)
    ensures var l := Normalize(raw);
            && l != ""
            && Step(ikw, st, raw) == KwScan(Some([l]), l[|l| - 1] == '&', l[|l| - 1] == '&')
  {
    NormalizeNonEmpty(raw);
  }

  /** Any other line leaves the list alone or appends itself to it, and never starts appending. */
  lemma {:induction false} StepOther(ikw: string, st: KwScan, raw: string)
    requires !DefinesLine(raw, ikw)
    ensures var r := Step(ikw, st, raw);
            && (r.append ==> st.append)
            && (!(st.append && st.cont && st.conf.Some?) || Skipped(raw) ==> r.conf == st.conf)
            && (st.append && st.cont && st.conf.Some? && !Skipped(raw) ==> r.conf == Some(st.conf.value + [Normalize(raw)]))
  {
    if !Skipped(raw) {
      NormalizeNonEmpty(raw);
    }
  }

  /** Whenever lines are being appended, a list has been started and holds a non-empty first line. */
  predicate ScanInv(st: KwScan)
  {
    && (st.append ==> st.conf.Some?)
    && (st.conf.Some? ==> |st.conf.value| >= 1 && st.conf.value[0] != "")
  }

  /** No line of `lines` starts the definition of `ikw`. */
  predicate NoDefinition(lines: seq<string>, ikw: string)
  {
    forall k :: 0 <= k < |lines| ==> !DefinesLine(lines[k], ikw)
  }

  lemma {:induction false} NoDefinitionSnoc(lines: seq<string>, ikw: string)
    requires |lines| > 0
    ensures NoDefinition(lines, ikw) <==>
              NoDefinition(lines[..|lines| - 1], ikw) && !DefinesLine(lines[|lines| - 1], ikw)
  {
    var init := lines[..|lines| - 1];
    assert forall k :: 0 <= k < |init| ==> init[k] == lines[k];
  }

  lemma {:induction false} ScanKeepsInv(ikw: string, lines: seq<string>)
    ensures ScanInv(Scan(ikw, lines))
    ensures Scan(ikw, lines).conf.None? <==> NoDefinition(lines, ikw)
  {
    if |lines| > 0 {
      var init := lines[..|lines| - 1];
      var last := lines[|lines| - 1];
      ScanKeepsInv(ikw, init);
      NoDefinitionSnoc(lines, ikw);
      if DefinesLine(last, ikw) {
        StepDefining(ikw, Scan(ikw, init), last);
      } else {
        StepOther(ikw, Scan(ikw, init), last);
      }
    }
  }

  lemma {:induction false} JoinNonEmpty(sep: string, xs: seq<string>)
    requires |xs| >= 1 && xs[0] != ""
    ensures Join(sep, xs) != ""
  {
  }

  /** `getKw` yields `''` exactly when no line of the file defines the keyword. */
  lemma {:induction false} KwConfEmpty(lines: seq<string>, kw: string)
    ensures KwConf(lines, kw) == "" <==> NoDefinition(lines, Lower(kw))
  {
    var st := Scan(Lower(kw), lines);
    ScanKeepsInv(Lower(kw), lines);
    if st.conf.Some? {
      JoinNonEmpty("", st.conf.value);
    }
  }

  /** After the last defining line, later lines only ever append: the collected text starts with that line. */
  lemma {:induction false} KwConfLastDefinition(ikw: string, lines: seq<string>, k: nat)
    requires k < |lines| && DefinesLine(lines[k], ikw)
    requires forall j :: k < j < |lines| ==> !DefinesLine(lines[j], ikw)
    ensures Scan(ikw, lines).conf.Some?
    ensures |Scan(ikw, lines).conf.value| >= 1
    ensures Scan(ikw, lines).conf.value[0] == Normalize(lines[k])
  {
    if |lines| > k + 1 {
      var init := lines[..|lines| - 1];
      assert forall j :: 0 <= j < |init| ==> init[j] == lines[j];
      KwConfLastDefinition(ikw, init, k);
      StepOther(ikw, Scan(ikw, init), lines[|lines| - 1]);
    } else {
      assert lines[..|lines| - 1][..k] == lines[..k];
      StepDefining(ikw, Scan(ikw, lines[..|lines| - 1]), lines[k]);
    }
  }

  /** A definition not ending in `&` is the whole configuration, whatever follows it. */
  lemma {:induction false} KwConfSingleLine(ikw: string, lines: seq<string>, k: nat)
    requires k < |lines| && DefinesLine(lines[k], ikw)
    requires Normalize(lines[k])[|Normalize(lines[k])| - 1] != '&'
    requires forall j :: k < j < |lines| ==> !DefinesLine(lines[j], ikw)
    ensures Scan(ikw, lines).conf == Some([Normalize(lines[k])])
    ensures !Scan(ikw, lines).append
  {
    var init := lines[..|lines| - 1];
    var st := Scan(ikw, init);
    assert Scan(ikw, lines) == Step(ikw, st, lines[|lines| - 1]);
    if |lines| > k + 1 {
      assert forall j :: 0 <= j < |init| ==> init[j] == lines[j];
      KwConfSingleLine(ikw, init, k);
      StepOther(ikw, st, lines[|lines| - 1]);
    } else {
      StepDefining(ikw, st, lines[k]);
    }
  }

  /** A definition ending in `&` takes the next (non-blank, non-comment, non-defining) line as its continuation. */
  lemma {:induction false} KwConfContinued(ikw: string, pre: seq<string>, d: string, c: string)
    requires DefinesLine(d, ikw) && !Skipped(c) && !DefinesLine(c, ikw)
    requires Normalize(d)[|Normalize(d)| - 1] == '&'
    ensures Scan(ikw, pre + [d, c]).conf == Some([Normalize(d), Normalize(c)])
  {
    var ls := pre + [d, c];
    assert ls[..|ls| - 1] == pre + [d];
    assert (pre + [d])[..|pre|] == pre;
    var st1 := Step(ikw, Scan(ikw, pre), d);
    assert Scan(ikw, pre + [d]) == st1;
    StepDefining(ikw, Scan(ikw, pre), d);
    assert Scan(ikw, ls) == Step(ikw, st1, c);
    StepOther(ikw, st1, c);
    assert [Normalize(d)] + [Normalize(c)] == [Normalize(d), Normalize(c)];
  }

  // ------------------------------------------------------------------ detectAllKws

  /** The keyword a line contributes: the text before `:` once every blank is removed. */
  function KwOf(raw: string): (r: seq<string>)
    ensures |r| <= 1
    ensures |r| == 1 ==> ':' !in r[0] && NoSpace(r[0])
  {
    var l := RemoveWs(raw);
    if StartsWith(l, "!") || ':' !in l then []
    else
      var kw := Split(l, ':')[0];
      assert kw == l[..IndexOfChar(l, ':')];
      [kw]
  }

  /** The keywords of the given lines, in file order. */
  function AllKws(lines: seq<string>): seq<string>
  {
    FlatMap(lines, KwOf)
  }

  /** `detectAllKws` */
  method DetectAllKws(lines: seq<string>) returns (kws: seq<string>)
    ensures kws == AllKws(lines)
  {
    kws := [];
    for n := 0 to |lines|
      invariant kws == AllKws(lines[..n])
    {
      assert lines[..n + 1][..n] == lines[..n];
      var line := RemoveWs(lines[n]);
      if StartsWith(line, "!") {
        continue;
      }
      if ':' in line {
        kws := kws + [Split(line, ':')[0]];
      }
    }
    assert lines[..|lines|] == lines;
  }

  /** Keywords of concatenated files are concatenated. */
  lemma {:induction false} AllKwsConcat(a: seq<string>, b: seq<string>)
    ensures AllKws(a + b) == AllKws(a) + AllKws(b)
  {
    FlatMapConcat(a, b, KwOf);
  }

  /**
   * A detected keyword is the blank-free text before the `:` of some non-comment
   * line, and every such line contributes its keyword.
   */
  lemma {:induction false} AllKwsMembers(lines: seq<string>, kw: string)
    ensures kw in AllKws(lines) <==> exists k :: 0 <= k < |lines| && KwOf(lines[k]) == [kw]
    ensures kw in AllKws(lines) ==> ':' !in kw && NoSpace(kw)
  {
    FlatMapMember(lines, KwOf, kw);
    if kw in AllKws(lines) {
      var k :| 0 <= k < |lines| && KwOf(lines[k]) == [kw];
      assert kw in KwOf(lines[k]);
    }
  }

  // ------------------------------------------------------------------ sto variables, rpn2val

  /** `scanStoVars` as written: every word that names a `sto` variable is replaced everywhere, even inside other words. */
  function ScanStoVarsAsWritten(line: string, sto: map<string, string>): string
  {
    ReplaceWords(line, SplitWs(line), sto)
  }

  function ReplaceWords(s: string, words: seq<string>, sto: map<string, string>): string
    requires forall i :: 0 <= i < |words| ==> words[i] != ""
    decreases |words|
  {
    if |words| == 0 then s
    else
      var s' := if words[0] in sto then ReplaceAll(s, words[0], sto[words[0]]) else s;
      ReplaceWords(s', words[1..], sto)
  }

  /** `scanStoVars` as intended: each whole word that names a `sto` variable is replaced by its value. */
  function ScanStoVars(line: string, sto: map<string, string>): (r: string)
  {
    var ws := SplitWs(line);
    Join(" ", seq(|ws|, i requires 0 <= i < |ws| => if ws[i] in sto then sto[ws[i]] else ws[i]))
  }

  /** The words of the substituted line are the substituted words, one for one. */
  lemma {:induction false} ScanStoVarsWords(line: string, sto: map<string, string>)
    requires forall k :: k in sto ==> sto[k] != "" && NoSpace(sto[k])
    ensures var ws := SplitWs(line);
            var rs := SplitWs(ScanStoVars(line, sto));
            && |rs| == |ws|
            && forall i :: 0 <= i < |ws| ==> rs[i] == (if ws[i] in sto then sto[ws[i]] else ws[i])
  {
    var ws := SplitWs(line);
    SplitWsJoin(seq(|ws|, i requires 0 <= i < |ws| => if ws[i] in sto then sto[ws[i]] else ws[i]));
  }

  /** A parameter value after `rpn2val`: an expression the solver accepts becomes its number. */
  function Resolve(v: Value, sto: map<string, string>, solve: string -> Option<real>): (r: Value)
    ensures v.Num? ==> r == v
    ensures v.Str? ==> (r.Num? <==> solve(ScanStoVars(v.s, sto)).Some?)
    ensures v.Str? && r.Num? ==> r.r == solve(ScanStoVars(v.s, sto)).value
    ensures r.Str? ==> r == v
  {
    match v
    case Num(_) => v
    case Str(s) =>
      var x := solve(ScanStoVars(s, sto));
      if x.Some? then Num(x.value) else v
  }

  /** `rpn2val`: the parameters of a non-beamline element resolved; everything else unchanged. */
  function Rpn2Val(e: Entry, sto: map<string, string>, solve: string -> Option<real>): (r: Entry)
    ensures !e.Element? || e.etype == BeamlineType ==> r == e
    ensures e.Element? ==> r.Element? && r.etype == e.etype && r.params.Keys == e.params.Keys
    ensures e.Element? && e.etype != BeamlineType ==> forall k :: k in e.params ==> r.params[k] == Resolve(e.params[k], sto, solve)
    ensures e.Element? ==> forall k :: k in e.params && e.params[k].Num? ==> r.params[k] == e.params[k]
  {
    match e
    case Element(t, ps) =>
      if t == BeamlineType then e
      else Element(t, map k | k in ps :: Resolve(ps[k], sto, solve))
    case _ => e
  }

  /**
   * After `rpn2val` a parameter of an element is a number exactly when it was one
   * or the solver accepts its text with the `sto` variables substituted; any
   * other parameter keeps its text.
   */
  lemma {:induction false} Rpn2ValNumbers(e: Entry, sto: map<string, string>, solve: string -> Option<real>, k: string)
    requires e.Element? && e.etype != BeamlineType && k in e.params
    ensures var v, w := e.params[k], Rpn2Val(e, sto, solve).params[k];
            && (w.Num? <==> v.Num? || solve(ScanStoVars(v.s, sto)).Some?)
            && (w.Str? ==> w == v)
  {
    assert Rpn2Val(e, sto, solve).params[k] == Resolve(e.params[k], sto, solve);
  }

  /** Resolving twice resolves nothing more. */
  lemma {:induction false} Rpn2ValIdempotent(e: Entry, sto: map<string, string>, solve: string -> Option<real>)
    ensures Rpn2Val(Rpn2Val(e, sto, solve), sto, solve) == Rpn2Val(e, sto, solve)
  {
  }

  // ------------------------------------------------------------------ as-written behaviour on concrete input

  lemma {:induction false} RenameStepLower()
    ensures Lower("xline:q") == "xline:q"
  {
    LowerNoCapitals("xline:q");
  }

  lemma {:induction false} LineAt()
    ensures At("xline:q", 1, "line")
  {
    assert "xline:q"[1..5] == "line";
  }

  lemma {:induction false} RenameStepContains()
    ensures Contains(Split("xline:q", '=')[0], "line")
  {
    SplitNone("xline:q", '=');
    LineAt();
    ContainsAt("xline:q", 1, "line");
  }

  lemma {:induction false} RenameStepReverse()
    ensures Reverse(ReplaceChar("xline:q", ',', ' ')) == "q:enilx"
  {
    ReplaceCharAbsent("xline:q", ',', ' ');
  }

  lemma {:induction false} EnilAt()
    ensures At("q:enilx", 2, "enil") && 'e' !in "q:enilx"[..2]
  {
    assert "q:enilx"[2..6] == "enil";
  }

  lemma {:induction false} RenameSplice()
    ensures "q:enilx"[..2] + "ecittal,enilmaeb" + "q:enilx"[6..] == "q:ecittal,enilmaebx"
  {
  }

  lemma {:induction false} RenameStepReplace()
    ensures ReplaceFirst("q:enilx", "enil", "ecittal,enilmaeb") == "q:ecittal,enilmaebx"
  {
    EnilAt();
    ReplaceFirstAt("q:enilx", 2, "enil", "ecittal,enilmaeb");
    RenameSplice();
  }

  lemma {:induction false} RenameStepBack()
    ensures Reverse("q:ecittal,enilmaebx") == "xbeamline,lattice:q"
  {
  }

  /** An element whose name contains `line` is renamed by the as-written beamline rewrite. */
  lemma {:induction false} MarkBeamlineAsWrittenRenames()
    ensures MarkBeamlineAsWritten("xline:q") == "xbeamline,lattice:q"
  {
    RenameStepLower();
    RenameStepContains();
    RenameStepReverse();
    RenameStepReplace();
    RenameStepBack();
  }

  lemma {:induction false} XlineColon()
    ensures IndexOfChar("xline:q", ':') == 5 && "xline:q"[6..] == "q"
  {
    IndexOfCharAt("xline:q", ':', 5);
  }

  lemma {:induction false} QTypeWord()
    ensures Strip("q"[..IndexOfChar("q", '=')]) == "q"
  {
    IndexOfCharAt("q", '=', 1);
    assert "q"[..1] == "q";
    StripTrimmed("q");
  }

  /** The intended rewrite leaves that element alone. */
  lemma {:induction false} MarkBeamlineKeepsElement()
    ensures MarkBeamline("xline:q") == "xline:q"
  {
    RenameStepLower();
    XlineColon();
    QTypeWord();
    assert "q" != "line";
  }

  /** Lower-casing brings in no character that is not a lower-case letter. */
  lemma {:induction false} LowerLacks(s: string, c: char)
    requires c !in s && !('a' <= c <= 'z')
    ensures c !in Lower(s)
  {
    forall i | 0 <= i < |s|
      ensures Lower(s)[i] != c
    {
      assert Lower(s)[i] == LowerChar(s[i]);
    }
  }

  /** Replacing one character by another brings in no third one. */
  lemma {:induction false} ReplaceCharLacks(s: string, a: char, b: char, c: char)
    requires c !in s && c != b
    ensures c !in ReplaceChar(s, a, b)
  {
    forall i | 0 <= i < |s|
      ensures ReplaceChar(s, a, b)[i] != c
    {
    }
  }

  /** A statement with a `:` is rewritten past it. */
  lemma {:induction false} MarkBeamlineTyped(s: string)
    requires IndexOfChar(Lower(s), ':') < |s|
    ensures MarkBeamline(s) == MarkTyped(s, Lower(s), IndexOfChar(Lower(s), ':'))
  {
  }

  /** Past the `:`, a type word `line` brings in `beamline,lattice` and blanks the list's commas. */
  lemma {:induction false} MarkTypedLine(s: string, low: string, i: nat, after: string, j: nat)
    requires i < |low| && after == low[i + 1..] && j == IndexOfChar(after, '=') && Strip(after[..j]) == "line"
    ensures MarkTyped(s, low, i) == low[..i + 1] + " beamline,lattice" + ReplaceChar(after[j..], ',', ' ')
  {
  }

  /** Past the `:`, any other type word leaves the statement as it is. */
  lemma {:induction false} MarkTypedOther(s: string, low: string, i: nat, after: string, j: nat)
    requires i < |low| && after == low[i + 1..] && j == IndexOfChar(after, '=') && Strip(after[..j]) != "line"
    ensures MarkTyped(s, low, i) == s
  {
  }

  /**
   * The intended rewrite of a beamline statement `name:line=refs`: the name is kept
   * (lower-cased), the type word becomes `beamline,lattice` and the commas of the list become blanks.
   */
  lemma {:induction false} MarkBeamlineRewrites(name: string, refs: string)
    requires ':' !in name
    ensures MarkBeamline(name + ":line=" + refs) == Lower(name) + ": beamline,lattice=" + ReplaceChar(Lower(refs), ',', ' ')
  {
    var ln, lr := Lower(name), Lower(refs);
    LowerStatement(name, refs);
    LowerLacks(name, ':');
    RewriteCuts(ln, lr);
    MarkBeamlineTyped(name + ":line=" + refs);
    TypedLineRewrites(name + ":line=" + refs, ln, lr);
  }

  /**
   * The intended rewrite of a beamline statement `name:t=refs` whose type word `t`
   * is `line` once lower-cased and trimmed: the same marked statement.
   */
  lemma {:induction false} MarkBeamlineTypeWord(name: string, t: string, refs: string)
    requires ':' !in name && '=' !in t && Strip(Lower(t)) == "line"
    ensures MarkBeamline(name + ":" + t + "=" + refs) == Lower(name) + ": beamline,lattice=" + ReplaceChar(Lower(refs), ',', ' ')
  {
    var rest := "=" + refs;
    var s := name + ":" + t + rest;
    assert name + ":" + t + "=" + refs == s;
    OtherCuts(name, t, rest);
    var low := Lower(s);
    var after := low[|name| + 1..];
    MarkBeamlineTyped(s);
    MarkTypedLine(s, low, |name|, after, |t|);
    TypeWordPieces(name, t, refs);
    MarkedAssembly(low[..|name| + 1], after[|t|..], Lower(name), Lower(refs));
  }

  lemma {:induction false} MarkedAssembly(head: string, tail: string, ln: string, lr: string)
    requires head == ln + ":" && tail == "=" + lr
    ensures head + " beamline,lattice" + ReplaceChar(tail, ',', ' ') == ln + ": beamline,lattice=" + ReplaceChar(lr, ',', ' ')
  {
    ReplaceCharConcat("=", lr, ',', ' ');
  }

  /** The pieces the rewrite of `name:t=refs` keeps: the lower-cased name with its `:`, and `=` with the lower-cased list. */
  lemma {:induction false} TypeWordPieces(name: string, t: string, refs: string)
    ensures var low := Lower(name + ":" + t + ("=" + refs));
            && |name| < |low| && low[..|name| + 1] == Lower(name) + ":"
            && low[|name| + 1..][|t|..] == "=" + Lower(refs)
  {
    var low := Lower(name + ":" + t + ("=" + refs));
    LowerConcat(name + ":" + t, "=" + refs);
    LowerConcat(name + ":", t);
    LowerConcat(name, ":");
    LowerConcat("=", refs);
    assert Lower(":") == ":" && Lower("=") == "=";
    assert low == Lower(name) + ":" + Lower(t) + ("=" + Lower(refs));
  }

  lemma {:induction false} LowerConcat(a: string, b: string)
    ensures Lower(a + b) == Lower(a) + Lower(b)
  {
  }

  /** Past the `:` of a lower-cased beamline statement, the rewrite builds the marked statement. */
  lemma {:induction false} TypedLineRewrites(s: string, ln: string, lr: string)
    requires ':' !in ln
    ensures MarkTyped(s, ln + ":line=" + lr, |ln|) == ln + ": beamline,lattice=" + ReplaceChar(lr, ',', ' ')
  {
    TypedLineFacts(ln, lr);
    MarkTypedLine(s, ln + ":line=" + lr, |ln|, (ln + ":line=" + lr)[|ln| + 1..], 4);
  }

  /** The cut points of a lower-cased beamline statement and the pieces the rewrite joins. */
  lemma {:induction false} TypedLineFacts(ln: string, lr: string)
    requires ':' !in ln
    ensures var low := ln + ":line=" + lr;
            && |ln| < |low|
            && var after := low[|ln| + 1..];
            && 4 == IndexOfChar(after, '=') && Strip(after[..4]) == "line"
            && low[..|ln| + 1] + " beamline,lattice" + ReplaceChar(after[4..], ',', ' ')
               == ln + ": beamline,lattice=" + ReplaceChar(lr, ',', ' ')
  {
    RewriteCuts(ln, lr);
    RewriteBuilds(ln, lr);
    StripLine((ln + ":line=" + lr)[|ln| + 1..][..4]);
  }

  lemma {:induction false} LowerStatement(name: string, refs: string)
    ensures Lower(name + ":line=" + refs) == Lower(name) + ":line=" + Lower(refs)
  {
  }

  /** Where the intended rewrite cuts a lower-cased beamline statement. */
  lemma {:induction false} RewriteCuts(ln: string, lr: string)
    requires ':' !in ln
    ensures IndexOfChar(ln + ":line=" + lr, ':') == |ln|
    ensures IndexOfChar((ln + ":line=" + lr)[|ln| + 1..], '=') == 4
    ensures (ln + ":line=" + lr)[|ln| + 1..][..4] == "line"
  {
    var low := ln + ":line=" + lr;
    IndexOfCharAt(low, ':', |ln|);
    var after := low[|ln| + 1..];
    assert after == "line=" + lr;
    IndexOfCharAt(after, '=', 4);
  }

  /** What the intended rewrite builds from the pieces of a lower-cased beamline statement. */
  lemma {:induction false} RewriteBuilds(ln: string, lr: string)
    ensures (ln + ":line=" + lr)[..|ln| + 1] + " beamline,lattice" + ReplaceChar((ln + ":line=" + lr)[|ln| + 1..][4..], ',', ' ')
            == ln + ": beamline,lattice=" + ReplaceChar(lr, ',', ' ')
  {
    var low := ln + ":line=" + lr;
    var after := low[|ln| + 1..];
    assert after[4..] == "=" + lr;
    ReplaceCharConcat("=", lr, ',', ' ');
    assert low[..|ln| + 1] == ln + ":";
  }

  lemma {:induction false} StripLine(t: string)
    requires t == "line"
    ensures Strip(t) == "line"
  {
    StripTrimmed(t);
  }

  /** A statement whose type word is not `line` is left as it is, whatever its name holds. */
  lemma {:induction false} MarkBeamlineKeepsOthers(name: string, t: string, rest: string)
    requires ':' !in name && '=' !in t && Strip(Lower(t)) != "line"
    requires rest == "" || rest[0] == '='
    ensures MarkBeamline(name + ":" + t + rest) == name + ":" + t + rest
  {
    var s := name + ":" + t + rest;
    OtherCuts(name, t, rest);
    MarkBeamlineTyped(s);
    MarkTypedOther(s, Lower(s), |name|, Lower(s)[|name| + 1..], |t|);
  }

  /** Where the rewrite cuts a statement `name:t rest`: after `name`, and after `t` past the `:`. */
  lemma {:induction false} OtherCuts(name: string, t: string, rest: string)
    requires ':' !in name && '=' !in t
    requires rest == "" || rest[0] == '='
    ensures var low := Lower(name + ":" + t + rest);
            && IndexOfChar(low, ':') == |name| < |low|
            && var after := low[|name| + 1..];
            && IndexOfChar(after, '=') == |t| && after[..|t|] == Lower(t)
  {
    var s := name + ":" + t + rest;
    var low := Lower(s);
    var ln, lt, lr := Lower(name), Lower(t), Lower(rest);
    assert low == ln + ":" + (lt + lr);
    LowerLacks(name, ':');
    IndexOfCharAt(low, ':', |name|);
    var after := low[|name| + 1..];
    assert after == lt + lr;
    LowerLacks(t, '=');
    IndexOfCharAt(after, '=', |t|);
    assert after[..|t|] == lt;
  }

  /** The parameter tail `lattice=R` of a rewritten beamline statement has two tokens. */
  lemma {:induction false} LatticeParamTokens(r: string)
    requires ',' !in r && '=' !in r && NonBlank(r)
    ensures ParamTokens("lattice=" + r) == ["lattice", r]
  {
    var tail := "lattice=" + r;
    assert ',' !in "lattice=";
    assert ',' !in tail;
    ReplaceCharAbsent(tail, ',', '=');
    assert tail == "lattice" + ['='] + r;
    SplitFirst("lattice", '=', r);
    SplitNone(r, '=');
    var ts := ["lattice", r];
    assert !IsSpace("lattice"[0]);
    FilterAll(ts, NonBlank);
  }

  /** That tail holds the one parameter `lattice`, its value trimmed. */
  lemma {:induction false} LatticeParams(r: string)
    requires ',' !in r && '=' !in r && '"' !in r && '\'' !in r && NonBlank(r)
    ensures ParamsOf("lattice=" + r) == map[LatticeKey := Str(Strip(r))]
  {
    LatticePairs(r);
  }

  lemma {:induction false} LatticePairs(r: string)
    requires ',' !in r && '=' !in r && '"' !in r && '\'' !in r && NonBlank(r)
    ensures ParamPairs("lattice=" + r) == [(LatticeKey, Str(Strip(r)))]
  {
    LatticeParamTokens(r);
    var ps := Pairs(["lattice", r]);
    assert ps == [("lattice", r)];
    LatticeCook(r);
  }

  /** The pair `lattice`/`R` cooks to the `lattice` key and the trimmed list. */
  lemma {:induction false} LatticeCook(r: string)
    requires '"' !in r && '\'' !in r
    ensures Cook(("lattice", r)) == (LatticeKey, Str(Strip(r)))
  {
    StripTrimmed("lattice");
    StripLacks(r, '"');
    StripLacks(r, '\'');
    RemoveAbsent(Strip(r), '"');
    RemoveAbsent(Strip(r), '\'');
  }

  /** The descriptor of a rewritten beamline statement is a beamline record holding the list. */
  lemma {:induction false} BeamlineRecord(r: string)
    requires ',' !in r && '=' !in r && ';' !in r && '"' !in r && '\'' !in r && NonBlank(r)
    ensures Record(" beamline,lattice=" + r) == Element(BeamlineType, map[LatticeKey := Str(Strip(r))])
  {
    var d := " beamline,lattice=" + r;
    BeamlineCut(r);
    StripLeadingBlank(" beamline");
    assert " beamline"[1..] == BeamlineType;
    StripTrimmed(BeamlineType);
    LatticeParams(r);
    RecordShape(d);
  }

  /** A rewritten descriptor splits at its first comma into ` beamline` and the `lattice` tail. */
  lemma {:induction false} BeamlineCut(r: string)
    requires ',' !in r && ';' !in r
    ensures var d := " beamline,lattice=" + r;
            && ';' !in d && IndexOfChar(d, ',') == 9 && d[..9] == " beamline" && d[10..] == "lattice=" + r
  {
    var d := " beamline,lattice=" + r;
    assert ';' !in " beamline,lattice=";
    assert d[..9] == " beamline";
    IndexOfCharAt(d, ',', 9);
  }

  /**
   * A beamline statement `name:line=(a,b,...)` rewritten as intended reads, with
   * `str2dict`, as a beamline record under the upper-cased name whose `lattice`
   * parameter is the list with its commas blanked.
   */
  lemma {:induction false} MarkedLineReadsAsBeamline(name: string, refs: string)
    requires ':' !in name && ';' !in name
    requires |refs| > 0 && refs[0] == '('
    requires ':' !in refs && ';' !in refs && '=' !in refs && '"' !in refs && '\'' !in refs
    ensures Str2Dict(MarkBeamline(name + ":line=" + refs))
         == Some((Upper(Strip(Lower(name))), Element(BeamlineType, map[LatticeKey := Str(Strip(ReplaceChar(Lower(refs), ',', ' ')))])))
  {
    MarkBeamlineRewrites(name, refs);
    LowerLacks(name, ':');
    MarkedListLacks(refs);
    MarkedReads(Lower(name), ReplaceChar(Lower(refs), ',', ' '));
  }

  /** `str2dict` of a rewritten beamline statement, over its lower-cased name and blanked list. */
  lemma {:induction false} MarkedReads(ln: string, r: string)
    requires ':' !in ln
    requires NonBlank(r) && ',' !in r
    requires ':' !in r && ';' !in r && '=' !in r && '"' !in r && '\'' !in r
    ensures Str2Dict(ln + ": beamline,lattice=" + r)
         == Some((Upper(Strip(ln)), Element(BeamlineType, map[LatticeKey := Str(Strip(r))])))
  {
    MarkedSplit(ln, r);
    BeamlineRecord(r);
  }

  /** A rewritten beamline statement splits at its one `:` into the name and the descriptor. */
  lemma {:induction false} MarkedSplit(ln: string, r: string)
    requires ':' !in ln && ':' !in r
    ensures Split(ln + ": beamline,lattice=" + r, ':') == [ln, " beamline,lattice=" + r]
  {
    var d := " beamline,lattice=" + r;
    assert ln + ": beamline,lattice=" + r == ln + [':'] + d;
    assert ':' !in " beamline,lattice=";
    SplitFirst(ln, ':', d);
    SplitNone(d, ':');
  }

  /** The rewritten list of a beamline statement keeps its `(` and gains no separator. */
  lemma {:induction false} MarkedListLacks(refs: string)
    requires |refs| > 0 && refs[0] == '('
    requires ':' !in refs && ';' !in refs && '=' !in refs && '"' !in refs && '\'' !in refs
    ensures var r := ReplaceChar(Lower(refs), ',', ' ');
            && |r| > 0 && r[0] == '(' && ',' !in r && NonBlank(r)
            && ':' !in r && ';' !in r && '=' !in r && '"' !in r && '\'' !in r
  {
    var lr := Lower(refs);
    LowerLacks(refs, ':');
    LowerLacks(refs, ';');
    LowerLacks(refs, '=');
    LowerLacks(refs, '"');
    LowerLacks(refs, '\'');
    ReplaceCharLacks(lr, ',', ' ', ':');
    ReplaceCharLacks(lr, ',', ' ', ';');
    ReplaceCharLacks(lr, ',', ' ', '=');
    ReplaceCharLacks(lr, ',', ' ', '"');
    ReplaceCharLacks(lr, ',', ' ', '\'');
    assert lr[0] == LowerChar(refs[0]);
    assert !IsSpace(ReplaceChar(lr, ',', ' ')[0]);
  }

  lemma {:induction false} WordsOfExample()
    ensures SplitWs("a ab +") == ["a", "ab", "+"]
  {
    var ws := ["a", "ab", "+"];
    assert Join(" ", ws) == "a ab +" by {
      assert ws[1..] == ["ab", "+"] && ws[1..][1..] == ["+"];
    }
    SplitWsJoin(ws);
  }

  lemma {:induction false} ReplaceAllExample()
    ensures ReplaceAll("a ab +", "a", "1") == "1 1b +"
  {
    var s := "a ab +";
    assert At(s, 0, "a");
    FindFirstAt(s, 0, "a");
    var t := s[1..];
    assert t == " ab +";
    assert At(t, 1, "a");
    FindFirstAt(t, 1, "a");
    assert t[2..] == "b +";
    FindAbsent("b +", "a");
  }

  lemma {:induction false} ReplaceWordsExample()
    ensures ReplaceWords("a ab +", ["a", "ab", "+"], map["a" := "1"]) == "1 1b +"
  {
    var sto := map["a" := "1"];
    ReplaceAllExample();
    assert "a" in sto && "ab" !in sto && "+" !in sto;
    assert ["a", "ab", "+"][1..] == ["ab", "+"];
    assert ["ab", "+"][1..] == ["+"];
    assert ["+"][1..] == [];
  }

  /** A `sto` variable that is a prefix of another word is replaced inside that word as written. */
  lemma {:induction false} ScanStoVarsAsWrittenReplacesInsideWords()
    ensures ScanStoVarsAsWritten("a ab +", map["a" := "1"]) == "1 1b +"
  {
    WordsOfExample();
    ReplaceWordsExample();
  }

  lemma {:induction false} JoinExample()
    ensures Join(" ", ["1", "ab", "+"]) == "1 ab +"
  {
    assert ["1", "ab", "+"][1..] == ["ab", "+"];
    assert ["ab", "+"][1..] == ["+"];
  }

  lemma {:induction false} SubstExample(ws: seq<string>)
    requires ws == ["a", "ab", "+"]
    ensures seq(|ws|, i requires 0 <= i < |ws| => if ws[i] in map["a" := "1"] then map["a" := "1"][ws[i]] else ws[i])
            == ["1", "ab", "+"]
  {
    assert "ab" !in map["a" := "1"] && "+" !in map["a" := "1"];
  }

  /** The intended substitution replaces only the whole word. */
  lemma {:induction false} ScanStoVarsReplacesWholeWords()
    ensures ScanStoVars("a ab +", map["a" := "1"]) == "1 ab +"
  {
    WordsOfExample();
    SubstExample(SplitWs("a ab +"));
    JoinExample();
  }
}
