# beamline lattice handling, in Dafny

This project models the lattice-definition core of the `beamline` package, an
accelerator-modelling toolkit:

- **`LteParser`** reads elegant lattice files. It does four things:
  - finds the statement that defines a keyword, joining `&`-continued lines (`getKw`);
  - turns a statement `NAME : TYPE, k = v, ...` into a record `{NAME: {TYPE: {k: v}}}` (`str2dict`);
  - lists every keyword of a file (`detectAllKws`);
  - substitutes `sto` variables and resolves RPN expressions in parameters (`scanStoVars`, `rpn2val`).
- **`Lattice`** works on the namespace of such records. It can:
  - split the keywords into elements and beamlines;
  - expand a beamline recursively, with `N*NAME` repetition;
  - number the elements of each type in order of appearance;
  - select elements by index, list, slice or `all`, or by name;
  - change one numeric property of the selected elements, by a percentage or an arithmetic operation;
  - store new beamlines;
  - write element and beamline statements back out.
- **`MagBlock`** is the element object of the modelling side. It keeps:
  - simulation, control and miscellaneous configuration dicts, each with a key list kept in step with it;
  - a copy of the shared common information;
  - a drawing style copied from a class-wide style table;
  - a class-wide construction counter.
- **`Models`** assembles a lattice from element objects. It:
  - flattens nested lists of elements;
  - keeps private copies of them;
  - keeps the counter, name list and object list in step;
  - keeps the beamline element's `lattice = (...)` entry up to date;
  - places every element at the cumulative length of those before it.
- **`madParser`** reads a MAD-8 file:
  - finds the `BL: line=(...)` statement;
  - turns each referenced `NAME:TYPE,k=v,...` statement into a parameter dict with `type` and `ID` set.

How the model is built:
- Pure computations are Dafny functions over datatypes.
- The objects the source updates in place are classes:
  - `Lattice`, whose namespace `manipulateLattice` and `generateLatticeLine` rewrite;
  - `MagBlock`, plus `BlockClass` for its class-level counter, common information and style table;
  - `Models`.
- Their loops are methods with invariants, each proved equal to a specification function. The properties of the source are then proved about those functions.
- A Python exception is `None` (or an explicit error constructor) in the model.
- A file is given as its sequence of lines.
- Three places in the source behave differently from what they evidently intend (see Findings). Each as-written behaviour is kept in its own function with a lemma that exhibits it. The rest of the model (`getKw`, `rpn2val`, `madParser`) uses the corrected function.
- The RPN solver of the `pyrpn` package is a parameter `solve: string -> Option<real>`.
- Python's `str` of a float is a parameter `show: real -> string`.

Files:
- `wrappers.dfy`: `Option`.
- `pystr.dfy` and `pyseq.dfy`: the Python string and list operations the source uses.
- `lattice_data.dfy`: the namespace and its readers.
- `lte_parser.dfy`: the `LteParser` part of `beamline/lattice.py`.
- `lattice_expand.dfy`, `lattice_select.dfy`, `lattice_format.dfy` and `lattice.dfy`: the `Lattice` part of `beamline/lattice.py`.
- `element.dfy`: `beamline/element.py`.
- `models.dfy`: `beamline/models.py`.
- `blparser.dfy`: `beamline/blparser.py`.

## Model

| member | source | states |
|---|---|---|
| LteParser.Unquote | beamline/lattice.py:112 | A cleaned value holds no quote character and no character that was not in the raw value. |
| LteParser.ParamTokens | beamline/lattice.py:109-110 | Every key or value token of a parameter tail is non-blank and holds no `=`. |
| LteParser.Str2Dict | beamline/lattice.py:97-117 | A statement fails to parse exactly when it has no `:`. The name is the upper-cased, trimmed text before the first `:`. The record is an element or a bare type with a trimmed type, never the prefix list. |
| LteParser.Record | beamline/lattice.py:106-116 | The record of a descriptor has a trimmed type and is never the prefix list. |
| LteParser.Descriptor | beamline/lattice.py:103-105 | The descriptor holds no `:` and only characters of the statement. |
| LteParser.SplitColon | beamline/lattice.py:103-105 | The first two `:`-pieces of a statement are the text before its first `:` and the descriptor. |
| LteParser.SplitAtComma | beamline/lattice.py:106 | Rewriting the first `,` as `;;` and splitting on `;;` cuts the descriptor exactly at that first comma. |
| LteParser.RecordNoComma | beamline/lattice.py:106-116 | A descriptor without `,` gives the bare type `{NAME: type}`, trimmed. |
| LteParser.RecordShape | beamline/lattice.py:106-116 | The type is the trimmed text before the first `,`. The record is a bare type exactly when there is no `,`. Otherwise its parameters are those of the text after that comma. |
| LteParser.Str2DictShape | beamline/lattice.py:97-117 | The same type/parameter split holds for a whole statement that has a `:`. |
| LteParser.Str2DictRecord | beamline/lattice.py:97-117 | A statement with a `:` always parses, to the record of its descriptor. |
| LteParser.NormalizeNonEmpty | beamline/lattice.py:67-68 | A line that is not blank is still non-empty once its blanks are collapsed. |
| LteParser.ReadLine | beamline/lattice.py:67-77 | One pass of the `getKw` loop updates the collected list, `appendflag` and the continuation flag exactly as the scanner step `Step` does. |
| LteParser.Step | beamline/lattice.py:67-77 | One iteration of `getKw`'s loop on the scanner state: blank and `!` lines are skipped, a defining line starts a new collection, a continued line of the last definition is added. `ReadLine` is proved equal to it; `StepUnfold`, `StepDefining` and `StepOther` state its cases. |
| LteParser.Scan | beamline/lattice.py:66-77 | The scanner state after the lines, one `Step` per line. `ScanKeepsInv` states the invariant it keeps, and `GetKw`'s loop is proved to compute it. |
| LteParser.KwConf | beamline/lattice.py:55-86 | `getKw(kw)`: `''` when the keyword is never defined, otherwise the last definition joined, `&` read as `,`, rewritten by `MarkBeamline`. `KwConfEmpty`, `KwConfLastDefinition`, `KwConfSingleLine` and `KwConfContinued` state these cases. |
| LteParser.KwAsDict | beamline/lattice.py:133-139 | `getKwAsDict(kw)`: `str2dict` of `KwConf`, `None` for the error `str2dict` raises. `Str2Dict` states when that happens. |
| LteParser.GetKw | beamline/lattice.py:55-86 | The loop over the file yields `KwConf` of the keyword: the last definition with its `&` continuations joined and a beamline statement rewritten as intended (see Findings). |
| LteParser.StepUnfold | beamline/lattice.py:67-77 | For a line that is looked at: a defining line restarts the list with itself. A continuation after `&` is appended only while appending. Both flags follow the line's last character. |
| LteParser.StepDefining | beamline/lattice.py:70-73 | A line defining the keyword restarts the collected list with that line alone. |
| LteParser.StepOther | beamline/lattice.py:67-77 | Any other line never starts appending. It leaves the list alone unless the scan is appending after an `&`, and then it is appended. |
| LteParser.ScanKeepsInv | beamline/lattice.py:66-77 | While appending, a list with a non-empty first line exists. The list is unbound exactly when no line defines the keyword. |
| LteParser.KwConfEmpty | beamline/lattice.py:78-82 | `getKw` yields `''` exactly when no line of the file defines the keyword. The unbound `conflist` raises, and the exception is caught. |
| LteParser.KwConfLastDefinition | beamline/lattice.py:70-77 | The collected text starts with the last defining line of the file. |
| LteParser.KwConfSingleLine | beamline/lattice.py:70-77 | A last definition that does not end in `&` is the whole configuration, whatever lines follow. |
| LteParser.KwConfContinued | beamline/lattice.py:74-77 | A definition ending in `&` takes the next line that is looked at and is not a definition as its continuation. |
| LteParser.KwOf | beamline/lattice.py:149-153 | A line contributes at most one keyword, blank-free and without `:`. |
| LteParser.DetectAllKws | beamline/lattice.py:141-154 | The loop returns the keywords of the lines, in file order (`AllKws`). |
| LteParser.AllKwsConcat | beamline/lattice.py:146-154 | The keywords of two files in sequence are the keywords of each, concatenated. |
| LteParser.AllKwsMembers | beamline/lattice.py:141-154 | A name is detected exactly when some non-comment line with a `:` has it as its blank-free text before the first `:`. Every detected name is blank-free and has no `:`. |
| LteParser.AllKws | beamline/lattice.py:141-154 | The keywords defined by the lines, in file order. `DetectAllKws` is proved to compute it; `AllKwsConcat` and `AllKwsMembers` state its properties. |
| LteParser.ScanStoVarsWords | beamline/lattice.py:182-188 | The intended substitution has one word per word of the line. Each word naming a `sto` variable becomes its value, and the other words stay. |
| LteParser.ScanStoVars | beamline/lattice.py:182-188 | `scanStoVars` as intended: every whole word naming a `sto` variable is replaced by its value. `ScanStoVarsWords` and `ScanStoVarsReplacesWholeWords` state this (see Findings). |
| LteParser.Resolve | beamline/lattice.py:204-209 | A number stays as it is. A text becomes the number `solve(ScanStoVars(s, sto))` exactly when the solver accepts the text with the `sto` words substituted as whole words (see Findings). Otherwise the text stays as it is. |
| LteParser.Rpn2Val | beamline/lattice.py:190-211 | Each parameter of an element that is not a beamline becomes `Resolve` of itself, and the type and the keys are kept. Bare types, prefix lists and beamlines are unchanged. |
| LteParser.Rpn2ValNumbers | beamline/lattice.py:190-211 | After `rpn2val` a parameter of an element that is not a beamline is a number exactly when it was one or the solver accepts its substituted text. A parameter left as text is unchanged. |
| LteParser.Rpn2ValIdempotent | beamline/lattice.py:190-211 | Resolving a resolved record changes nothing more. |
| LteParser.MarkBeamlineAsWrittenRenames | beamline/lattice.py:79-80 | As written, the beamline rewrite fires on the element statement `xline:q` and turns it into `xbeamline,lattice:q`. |
| LteParser.MarkBeamlineAsWritten | beamline/lattice.py:79-80 | `getKw`'s beamline rewrite as written. `MarkBeamlineAsWrittenRenames` exhibits an element statement it renames (see Findings). |
| LteParser.MarkBeamline | beamline/lattice.py:79-80 | The rewrite as intended: a non-empty statement stays non-empty. `MarkBeamlineKeepsElement`, `MarkBeamlineKeepsOthers`, `MarkBeamlineRewrites` and `MarkBeamlineTypeWord` state which statements it rewrites and how. |
| LteParser.MarkBeamlineKeepsElement | beamline/lattice.py:79-80 | The intended rewrite leaves that element statement as it is. |
| LteParser.MarkBeamlineRewrites | beamline/lattice.py:79-80 | The intended rewrite turns any beamline statement `name:line=refs` into `name: beamline,lattice=refs`. The name is lower-cased and otherwise kept, and the commas of the list become blanks. |
| LteParser.MarkBeamlineKeepsOthers | beamline/lattice.py:79-80 | The intended rewrite leaves a statement whose type word is not `line` exactly as it is. This holds whatever the name contains, including `line`. |
| LteParser.MarkedLineReadsAsBeamline | beamline/lattice.py:79-80 | A beamline statement rewritten as intended reads back through `str2dict` as a BEAMLINE record under the upper-cased name. Its one parameter `lattice` is the blank-separated list. |
| LteParser.MarkBeamlineTypeWord | beamline/lattice.py:79-80 | A statement `name:t=refs` whose type word `t` is `line` becomes `name: beamline,lattice=` followed by the lower-cased references with every `,` read as a blank. |
| LteParser.LatticeParams | beamline/lattice.py:97-117 | The parameter text `lattice=R` reads as the single entry `lattice` with the trimmed text R. |
| LteParser.BeamlineRecord | beamline/lattice.py:97-117 | The descriptor ` beamline,lattice=R` reads as a BEAMLINE record whose only parameter is `lattice`. |
| LteParser.ScanStoVarsAsWrittenReplacesInsideWords | beamline/lattice.py:185-187 | As written, a `sto` variable `a` is also replaced inside the word `ab`: `a ab +` becomes `1 1b +`. |
| LteParser.ScanStoVarsAsWritten | beamline/lattice.py:182-188 | `scanStoVars` as written, with `str.replace` for each word. `ScanStoVarsAsWrittenReplacesInsideWords` exhibits the replacement inside a longer word (see Findings). |
| LteParser.ScanStoVarsReplacesWholeWords | beamline/lattice.py:185-187 | The intended substitution replaces only the whole word: `a ab +` becomes `1 ab +`. |
| LatticeData.ElementType | beamline/lattice.py:349-357 | The type exists exactly when the upper-cased keyword is stored and is not the prefix list. It is the stored type, upper-cased. |
| LatticeData.BeamlineRefs | beamline/lattice.py:255-259 | References exist exactly when the keyword's record has a textual `lattice` parameter. They are non-empty, blank-free words. |
| LatticeData.BeamlineEntryRefs | beamline/lattice.py:255-259 | The record `generateLatticeLine` stores reads back as the names it was built from. |
| LatticeExpand.FirstIndex | beamline/lattice.py:475-476 | `list.index` finds the first piece that is (or is not) all digits; `|ts|` stands for the ValueError. |
| LatticeExpand.Rinse | beamline/lattice.py:469-479 | A reference without `*` is one copy of itself. A rinsed name with `*` holds no `*` and is not all digits. |
| LatticeExpand.RinsePieces | beamline/lattice.py:474 | Removing blanks and splitting `n*name` at `*` gives the two pieces. |
| LatticeExpand.RinseCountFirst | beamline/lattice.py:469-477 | `N*NAME` rinses to `N` copies of `NAME`. |
| LatticeExpand.RinseCountLast | beamline/lattice.py:469-477 | `NAME*N` rinses to `N` copies of `NAME` as well. |
| LatticeExpand.RinseExample | beamline/lattice.py:469-477 | `18*aip` rinses to eighteen copies of `aip`. |
| LatticeExpand.AcyclicRefs | beamline/lattice.py:285-301 | Under an acyclic ranking, the references of a beamline name only lower-ranked beamlines. |
| LatticeExpand.Then | beamline/lattice.py:290-301 | Extending the result list succeeds exactly when both parts do, and concatenates them. |
| LatticeExpand.ThenAssoc | beamline/lattice.py:288-301 | Extending is associative, so the order in which references are grouped does not matter. |
| LatticeExpand.FullBeamline | beamline/lattice.py:261-304 | The caught AssertionError (the `None` of `getFullBeamline`) happens exactly when the keyword is not a beamline. |
| LatticeExpand.ExpandRefs | beamline/lattice.py:288-301 | The reference loop never yields the not-a-beamline outcome: a nested keyword is always a beamline. |
| LatticeExpand.Piece | beamline/lattice.py:289-301 | What one reference contributes is never the not-a-beamline outcome. |
| LatticeExpand.ExpandRefsConcat | beamline/lattice.py:288-301 | Expanding concatenated reference lists concatenates the expansions, and the first failure wins. |
| LatticeExpand.ExpandRefsPrefixRaises | beamline/lattice.py:283-302 | Once a prefix of the references raises, the whole expansion raises. |
| LatticeExpand.LeavesRepeat | beamline/lattice.py:299-301 | Repeating a list of leaves `N` times gives leaves. |
| LatticeExpand.FullBeamlineLeaves | beamline/lattice.py:261-304 | A full expansion holds no beamline name. When extending, it also holds no `N*` repetition. |
| LatticeExpand.ExpandRefsLeaves | beamline/lattice.py:286-301 | The same holds for the expansion of any reference list. |
| LatticeExpand.ExtendWithoutRepetition | beamline/lattice.py:287-301 | When no beamline uses `N*NAME`, extending and not extending give the same expansion. |
| LatticeExpand.ExpandRefsWithoutRepetition | beamline/lattice.py:287-301 | The same holds for a reference list without `*`. |
| LatticeExpand.ExpandRefsLength | beamline/lattice.py:293-301 | An extended expansion has the sum over its references of the count times the length of what the reference names. |
| LatticeSelect.CountStep | beamline/lattice.py:496-499 | One more item raises the count of its own type by one and no other count. |
| LatticeSelect.CountMonotone | beamline/lattice.py:496-499 | Counts over longer prefixes are no smaller. |
| LatticeSelect.Orders | beamline/lattice.py:494-499 | There is one order number per element of the line. |
| LatticeSelect.OrdersFirst | beamline/lattice.py:481-501 | The first element of a type is number one. |
| LatticeSelect.OrdersIncrease | beamline/lattice.py:481-501 | Later elements of the same type get strictly larger numbers, all at least one. |
| LatticeSelect.OrderCounts | beamline/lattice.py:494-499 | The counter loop with its per-type dict computes the order numbers `Orders`. |
| LatticeSelect.Zip3 | beamline/lattice.py:501 | The triple at position `i` holds the name, type and number at `i`. |
| LatticeSelect.TypesOf | beamline/lattice.py:493 | The type list exists exactly when every lookup succeeds, and then holds each name's type. |
| LatticeSelect.Ordered | beamline/lattice.py:492-501 | The triples exist exactly when every type lookup succeeds, with one triple per name. |
| LatticeSelect.OfType | beamline/lattice.py:530 | The filter keeps exactly the triples of the type. |
| LatticeSelect.ParseInts | beamline/lattice.py:534 | `map(int, ...)` succeeds exactly when every piece is an integer, and keeps their values in order. |
| LatticeSelect.PickOne | beamline/lattice.py:542 | Picking succeeds exactly when the text is an integer and an in-range Python index, and gives the item there. |
| LatticeSelect.PickAll | beamline/lattice.py:532 | A comma list succeeds exactly when every piece is an integer and an in-range index. The result holds the indexed items in the listed order. |
| LatticeSelect.Select | beamline/lattice.py:531-543 | Whatever is selected comes from the matched list. |
| LatticeSelect.SelectAll | beamline/lattice.py:539-540 | `all` selects every matched element. |
| LatticeSelect.SelectIndex | beamline/lattice.py:541-542 | A single index `k` selects exactly when `-n <= k < n`, giving the element at `k`, counted from the end when negative. |
| LatticeSelect.SelectList | beamline/lattice.py:531-532 | A comma list selects the listed indices in the listed order, one item per index. |
| LatticeSelect.SelectRange | beamline/lattice.py:533-538 | `start:stop` with in-range bounds selects the contiguous run between them. |
| LatticeSelect.SelectZeroStep | beamline/lattice.py:533-538 | A zero step is a ValueError, so nothing is selected. |
| LatticeSelect.Named | beamline/lattice.py:561 | The filter keeps exactly the triples with that name. |
| LatticeSelect.NamedCount | beamline/lattice.py:561 | Filtering by name yields one triple per occurrence of the name. |
| LatticeSelect.ParseOp | beamline/lattice.py:584-588 | An operation parses exactly when the string is non-empty and its operand is a number. The operator is the first character, and it is a percentage exactly when the string ends with `%`. |
| LatticeSelect.OpOf | beamline/lattice.py:584-588 | The operation exists exactly when the operand does. |
| LatticeSelect.ParseOpOperand | beamline/lattice.py:584-588 | The operand is divided by 100 exactly for a percentage. |
| LatticeSelect.ParsePercent | beamline/lattice.py:587-588 | `±p%` reads as the fraction `p/100`. |
| LatticeSelect.PercentOp | beamline/lattice.py:587-599 | `+p%` scales by `1 + p`, `-p%` by `1 - p`, and any other operator is a KeyError. |
| LatticeSelect.ArithmeticMeaning | beamline/lattice.py:584-599 | Without `%`, `+n`, `-n`, `*n` and `/n` apply the operator. `/0` and any other operator raise. |
| LatticeSelect.ArithmeticOp | beamline/lattice.py:591-595 | The four operators of the non-percentage table, and the KeyError and ZeroDivisionError cases. |
| LatticeSelect.UpdateOne | beamline/lattice.py:598-600 | An update keeps the keyword set. Every other record is unchanged. |
| LatticeSelect.UpdateOneFrame | beamline/lattice.py:598-600 | Only the named element's property changes, to the operation applied to its old value. Its type, its other parameters and its key set are kept. |
| LatticeSelect.ApplyAllFrame | beamline/lattice.py:597-600 | After the loop, every keyword is kept. Unselected records are unchanged. Every type and every beamline's references read the same. |
| LatticeSelect.UpdateKeepsReading | beamline/lattice.py:598-600 | One update leaves every type and every beamline's references as they were. |
| LatticeSelect.ApplyAllNeutral | beamline/lattice.py:597-600 | A neutral operation changes nothing, however many elements it is applied to. |
| LatticeSelect.ApplyTwiceCompounds | beamline/lattice.py:597-600 | An element selected twice is updated twice on its one shared record: `*c` twice multiplies by `c*c`. |
| LatticeSelect.ZeroPercentNeutral | beamline/lattice.py:587-590 | `+0%` maps every number to itself. |
| LatticeSelect.ParseZeroPercent | beamline/lattice.py:584-588 | The default `'+0%'` reads as `+`, percentage, operand 0. |
| LatticeSelect.ApplyOp | beamline/lattice.py:584-595 | The operator table of `manipulateLattice` applied to the old value, `None` for an unknown operator or a division by zero. `PercentOp`, `ArithmeticOp`, `ArithmeticMeaning` and `ZeroPercentNeutral` state its meaning. |
| LatticeSelect.ApplyAll | beamline/lattice.py:597-600 | The update loop over the selected elements, stopping at the first failure. `ApplyAllFrame`, `ApplyAllNeutral` and `ApplyTwiceCompounds` state what it changes; `Lattice.UpdateAll` is proved to compute it. |
| LatticeSelect.LexTrans | beamline/lattice.py:455 | Python's string order, used by `sorted`, is transitive. |
| LatticeSelect.LexTotal | beamline/lattice.py:455 | Python's string order is total on distinct strings. |
| LatticeSelect.Insert | beamline/lattice.py:455 | Inserting into a strictly sorted list keeps it strictly sorted and adds exactly the item. |
| LatticeSelect.SortedSet | beamline/lattice.py:455 | `sorted(set(xs))` is strictly sorted and holds exactly the items of `xs`. |
| LatticeSelect.ChargeElement | beamline/lattice.py:503-509 | A non-empty result is the first element keyword of type CHARGE in list order: every keyword before it has a type, and none of them is CHARGE. When no keyword is empty, `''` means that every keyword has a type and none is CHARGE. `None` means a type lookup raised before any CHARGE keyword. |
| LatticeFormat.ElementConf | beamline/lattice.py:359-373 | A non-empty parameter dict comes from a stored element record with a type. |
| LatticeFormat.Item | beamline/lattice.py:382 | Each `k = "v", ` item ends with `, `. |
| LatticeFormat.Items | beamline/lattice.py:381-382 | A non-empty run of items ends with `, `, which the `[:-2]` cut removes. |
| LatticeFormat.ElementLine | beamline/lattice.py:385-387 | The `elegant` statement of `formatElement`. `ElementLineReadsBack` and `ElementLineParamsReadBack` state that `str2dict` reads it back. |
| LatticeFormat.BeamlineText | beamline/lattice.py:462-463 | The beamline statement of `generateLatticeFile`. `BeamlineTextMarked` and `BeamlineTextReadsBack` state how `getKw` and `str2dict` read it back. |
| LatticeFormat.StripPadRight | beamline/lattice.py:385 | Left-justifying a trimmed name and stripping it gives the name back. |
| LatticeFormat.StripPadLeft | beamline/lattice.py:386 | Right-justifying a trimmed type and stripping it gives the type back. |
| LatticeFormat.ColonSplit | beamline/lattice.py:103-105 | A statement with one `:` reads as the upper-cased, trimmed text before it, with the rest as its descriptor. |
| LatticeFormat.StatementReadsBack | beamline/lattice.py:103-114 | A statement `a:p, rest` reads as keyword `Strip(a)` and type `Strip(p)`. Its parameters are `ParamsOf(" " + rest)`, the dict of the text after the first comma. |
| LatticeFormat.ElementLineReadsBack | beamline/lattice.py:375-391 | A statement written by `formatElement` parses back with `str2dict` to the upper-cased keyword and type it was written from. Its parameters are the dict of the item text without its trailing `, `. This holds when neither name has a blank at its ends or a separator. |
| LatticeFormat.ItemsReadBack | beamline/lattice.py:381-382 | When keys and shown values hold no separator or quote, the item text `k = "v", ...` without its trailing `, ` reads back as the dict mapping each written key to its shown value. |
| LatticeFormat.ElementLineParamsReadBack | beamline/lattice.py:375-391 | A statement written by `formatElement` parses back with `str2dict` to the upper-cased keyword and type and to exactly the parameters it was written from, each value as its shown text. |
| LatticeFormat.BeamlineTextMarked | beamline/lattice.py:462-463 | The intended rewrite `MarkBeamline` (see Findings) turns the beamline statement `BL    : line = (a, b)` into `bl    : beamline,lattice= (a  b)` with lower-cased names. |
| LatticeFormat.BeamlineTextReadsBack | beamline/lattice.py:462-463 | The beamline statement written by `generateLatticeFile`, rewritten by the intended `MarkBeamline` (see Findings) and parsed by `str2dict`, is the beamline of the upper-cased name. Its references are the written names, lower-cased and in order. |
| BeamLattice.LatticeOrder | beamline/lattice.py:481-501 | The triples exist only for a successful extended expansion, one per expanded name. |
| BeamLattice.ElementsByOrder | beamline/lattice.py:511-546 | A selection exists only for a defined beamline whose ordering succeeds. Every selected triple has the requested type and comes from the ordering. |
| BeamLattice.ElementsByName | beamline/lattice.py:548-566 | Found triples carry the lower-cased name and come from the ordering. |
| BeamLattice.Manipulated | beamline/lattice.py:568-602 | The keyword set is kept. A malformed operation changes nothing and does not return. |
| BeamLattice.FlattenLine | beamline/lattice.py:396-401 | A line whose last item is a name ends with that name. |
| BeamLattice.FileElements | beamline/lattice.py:452-454 | The written list is the extended line, or that line led by one extra keyword when it does not start with a CHARGE element. The lead is `''` or a CHARGE element. |
| BeamLattice.StatedWritable | beamline/lattice.py:455-457 | Once every name has a statement, every name can be written. |
| BeamLattice.Lattice.constructor | beamline/lattice.py:227-238 | For a namespace whose every keyword has a readable type, the namespace is stored. The two keyword lists hold exactly the beamlines and exactly the other keywords, each once. The failure on an unreadable type is under Left out. |
| BeamLattice.Lattice.GetAllKws | beamline/lattice.py:311-329 | For a namespace whose every keyword has a readable type, the prefix list is skipped. Every beamline keyword lands in the beamline list and every other keyword in the element list, each once. The failure on an unreadable type is under Left out. |
| BeamLattice.Lattice.IsBeamline | beamline/lattice.py:306-309 | A keyword is a beamline exactly when its upper-cased form is stored with type `beamline`. |
| BeamLattice.Lattice.GetFullBeamline | beamline/lattice.py:261-304 | The recursive `append`/`extend` loops compute `FullBeamline`. |
| BeamLattice.Lattice.GetPiece | beamline/lattice.py:288-301 | One pass of the loop computes what the reference contributes (`Piece`). |
| BeamLattice.Lattice.OrderLattice | beamline/lattice.py:481-501 | The method computes `LatticeOrder`. |
| BeamLattice.Lattice.GetElementByOrder | beamline/lattice.py:511-546 | The method computes `ElementsByOrder`. |
| BeamLattice.Lattice.GetElementByName | beamline/lattice.py:548-566 | The method computes `ElementsByName`. |
| BeamLattice.Lattice.ManipulateLattice | beamline/lattice.py:568-602 | The namespace is rewritten in place as `Manipulated` says. The keyword lists, the acyclic ranking and validity are kept. |
| BeamLattice.Lattice.UpdateAll | beamline/lattice.py:597-600 | The in-place loop over the selection computes `ApplyAll`. |
| BeamLattice.Lattice.GenerateLatticeLine | beamline/lattice.py:393-406 | The flattened line is stored under the upper-cased name, which joins the beamline list. Nothing else changes, and validity is kept. |
| BeamLattice.Lattice.GetChargeElement | beamline/lattice.py:503-509 | The loop computes `ChargeElement` over the element keywords. |
| BeamLattice.Lattice.FormatElement | beamline/lattice.py:375-391 | A statement exists exactly for the elegant format and a typed keyword. It is the padded name and type followed by the parameter items, each parameter once. |
| BeamLattice.Lattice.ElementStatements | beamline/lattice.py:455-457 | Statements exist exactly when every name can be written, one statement per name, in order. |
| BeamLattice.Lattice.GenerateLatticeFile | beamline/lattice.py:452-463 | The file can be written exactly when the element list exists and every name can be written. It then holds one statement per sorted distinct name, then the `line = (...)` statement over the whole list. |
| BeamLattice.WritableSorted | beamline/lattice.py:455 | Writing the sorted distinct names needs exactly what writing the whole list needs. |
| BeamLattice.ApplyAllStep | beamline/lattice.py:597-600 | One more selected item applies its update, unless the loop has stopped or the update fails. |
| BeamLattice.ApplyAllStops | beamline/lattice.py:597-600 | After the first failure, the remaining items change nothing. |
| BeamLattice.AcyclicKept | beamline/lattice.py:597-600 | A namespace whose beamlines read the same references keeps a ranking acyclic. |
| BeamLattice.ValidKept | beamline/lattice.py:597-600 | A namespace with the same keywords and types keeps the lattice object valid. |
| BeamLattice.NewLineKeepsValid | beamline/lattice.py:403-405 | Storing a new beamline under an upper-cased name and listing it keeps the lattice object valid. |
| BeamLattice.LatticeOrderNumbers | beamline/lattice.py:481-501 | Position `i` carries the expanded name and its type. Two elements of a type are numbered from one upward, in line order. |
| BeamLattice.LatticeOrderFirst | beamline/lattice.py:481-501 | The first element of a type in the extended line is number one. |
| BeamLattice.ByOrderAll | beamline/lattice.py:529-540 | `irange = 'all'` selects every element of the type, in line order. |
| BeamLattice.ByNameCount | beamline/lattice.py:558-562 | A found name yields one triple per occurrence in the extended line, at least one. |
| BeamLattice.ManipulateDefaultNeutral | beamline/lattice.py:568-602 | The default operation `'+0%'` leaves the namespace as it was. |
| BeamLattice.ManipulateFrame | beamline/lattice.py:568-602 | Elements outside the selection keep their records, and every keyword keeps its type. |
| BeamLattice.GeneratedLineReadsBack | beamline/lattice.py:393-406 | The line a generated record holds reads back, via `getBeamline`, as the flattened names. |
| BeamLattice.FlattenLineHas | beamline/lattice.py:396-401 | Every name of the `line` argument, nested lists included, is in the flattened line. |
| BeamLattice.FileLeadsWithCharge | beamline/lattice.py:452-454 | A file whose line does not start with a CHARGE element is led by the first CHARGE element keyword (or `''`). |
| MagBlocks.ConfTokens | beamline/element.py:159-163 | No token of a configuration text holds `=`. |
| MagBlocks.ConfStringEquals | beamline/element.py:160-161 | Reading the commas of a `k1=v1,k2=v2` text as `=` gives the keys and values interleaved with `=`. |
| MagBlocks.ConfTextReadsBack | beamline/element.py:158-166 | `str2dict` reads a `k1=v1,k2=v2` text back into its pairs, later keys overriding earlier ones as in `dict`. This holds when the text does not mention `lattice`. |
| MagBlocks.ConfTokensOfConfString | beamline/element.py:160-161 | The tokens of such a text are the keys and values, interleaved. |
| MagBlocks.StrippedPlainPairs | beamline/element.py:164-166 | Stripping pairs that are already trimmed changes nothing. |
| MagBlocks.LatticeConfText | beamline/element.py:162-166 | With `lattice` in the text only `=` splits it, so `lattice = (a, b)` gives `{lattice: (a, b)}`. |
| MagBlocks.ConfTextOfTwoTokens | beamline/element.py:164-166 | Two tokens make one stripped pair. |
| MagBlocks.LatticeTokens | beamline/element.py:162-163 | `lattice = v` splits only at its `=`. |
| MagBlocks.ConfText | beamline/element.py:158-166 | `str2dict`: the tokens paired as stripped key and value. `ConfTextReadsBack`, `LatticeConfText` and `ConfTextOfTwoTokens` state what it reads. |
| MagBlocks.ConfOf | beamline/element.py:200-210 | The dict a `setConf` argument stands for: a string through `str2dict`, a dict as it is. `SetConf` is proved to store it. |
| MagBlocks.Restrict | beamline/element.py:185-187 | Restricting a dict keeps exactly the shared keys. |
| MagBlocks.WriteAll | beamline/element.py:149-154 | Writing every pair of `d` into `m` one at a time gives `m` updated by `d`. |
| MagBlocks.Overlay | beamline/element.py:462-464 | `m[k] = u[k]` for every key the two share. `OverlayKeepsKeys`, `OverlayIsRestrictedUpdate`, `OverlaySelf` and `OverlayIdempotent` state its meaning. |
| MagBlocks.OverlayKeepsKeys | beamline/element.py:462-464 | Overlaying keeps the key set and takes the update's value exactly on the shared keys. |
| MagBlocks.OverlayIsRestrictedUpdate | beamline/element.py:462-464 | Overlaying is `dict.update` with the keys the dict lacks left out. |
| MagBlocks.OverlaySelf | beamline/element.py:462-464 | Overlaying a dict with itself leaves it as it is. |
| MagBlocks.OverlayIdempotent | beamline/element.py:462-464 | Overlaying twice with the same update is overlaying once. |
| MagBlocks.UpdateKnown | beamline/element.py:462-464 | The loop over the shared keys computes `Overlay`. |
| MagBlocks.ListOfSet | beamline/element.py:255 | `list(set(xs))` lists each element of the set exactly once. |
| MagBlocks.Merge | beamline/element.py:252-255 | The dict is updated by the configuration. The key list becomes the de-duplicated union of the old keys and the new ones. A key list in step with its dict stays in step. |
| MagBlocks.DefaultStyles | beamline/element.py:36-45 | The class style table the source starts with, entry by entry. `BlockClass.constructor` installs it, and element constructors take their styles from the table with `StyleOf`. |
| MagBlocks.Restyled | beamline/element.py:184-194 | `setStyleConfig`'s update of the style table by a configuration. `RestyledKeepsPairs` and `RestyledSelf` state that it adds no pair and that restyling with the table itself changes nothing. |
| MagBlocks.RestyledKeepsPairs | beamline/element.py:184-194 | Restyling keeps every (type, key) pair of the style table and adds none. |
| MagBlocks.RestyledSelf | beamline/element.py:182-187 | With no configuration the table is restyled by itself, which changes nothing. |
| MagBlocks.StyleOf | beamline/element.py:455-456 | Bends and quads take their own style's keys plus `lw`, copied from the drift style. |
| MagBlocks.BlockClass.constructor | beamline/element.py:34-46 | The counter starts at zero, the common information empty, and the style table at its defaults. |
| MagBlocks.BlockClass.SumObjNum | beamline/element.py:137-139 | `sumObjNum` returns the construction counter. |
| MagBlocks.BlockClass.SetCommInfo | beamline/element.py:142-156 | Every pair of the dict, or of the parsed text, is written into the common information. Any other argument changes nothing. |
| MagBlocks.BlockClass.Restyle | beamline/element.py:185-187 | The nested loop over shared styles and keys computes `Restyled`. |
| MagBlocks.BlockClass.SetStyleConfig | beamline/element.py:169-198 | With `showhelp` nothing changes and nothing is returned. Otherwise the table is restyled by the configuration (by itself when there is none) and returned. |
| MagBlocks.MagBlock.constructor | beamline/element.py:48-60 | Construction raises the class counter by exactly one, copies the common information, and stores the configuration in the simulation store. It leaves the other stores empty, the position unset, and copies the class's style. |
| MagBlocks.MagBlock.Copy | beamline/element.py:48-60 | A deep copy has every field of the original, and the counter is untouched. |
| MagBlocks.MagBlock.SetSimuConf | beamline/element.py:252-255 | The simulation store is merged with the configuration, and its key list stays in step. |
| MagBlocks.MagBlock.SetCtrlConf | beamline/element.py:257-260 | The control store is merged with the configuration, and its key list stays in step. |
| MagBlocks.MagBlock.SetMiscConf | beamline/element.py:262-265 | The miscellaneous store is merged with the configuration, and its key list stays in step. |
| MagBlocks.MagBlock.SetConf | beamline/element.py:200-210 | `None` changes nothing. Otherwise the parsed configuration is merged into exactly the store `type` names. An unknown `type` is the KeyError and changes nothing. |
| MagBlocks.MagBlock.SetStyle | beamline/element.py:462-464 | Only keys the style already has are re-valued. |
| MagBlocks.MagBlock.SetPosition | beamline/element.py:400-403 | The position is set. |
| MagBlocks.MagBlock.Dumped | beamline/element.py:312-319 | The dump has exactly the listed keys. With the key list in step, it is the whole dict. |
| MagBlocks.MagBlock.SimuConf | beamline/element.py:312-313 | With the key list in step, the simulation dump is exactly the simulation dict under the name and type. |
| MagBlocks.MagBlock.CtrlConf | beamline/element.py:318-319 | With the key list in step, the control dump is exactly the control dict. |
| MagBlocks.MagBlock.MiscConf | beamline/element.py:315-316 | With the key list in step, the miscellaneous dump is exactly the miscellaneous dict. |
| MagBlocks.MagBlock.AllConf | beamline/element.py:324-327 | The merged dump has the keys of all four dicts. Each key takes its value from the first dict that has it, in the order control, simulation, misc, comm. |
| MagBlocks.MagBlock.DumpOnlineConf | beamline/element.py:329-340 | The online dump has exactly the simulation keys. A key the control list names takes the control value, and every other key keeps the simulation value. The element is unchanged. |
| MagBlocks.MagBlock.Length | beamline/element.py:405-413 | A non-zero length comes from a listed `l` parameter of the simulation store. |
| MagBlocks.MagBlock.LengthIn | beamline/element.py:405-413 | The length a simulation store reports. It is the `l` value when that is a number, and the float read from it when it is a text that reads as one. It is 0.0 when the dump raises because a listed key is missing, when `l` is not listed, or when its text is not a float. |
| LatticeModels.FlattenAppend | beamline/models.py:181-193 | Flattening a concatenation flattens each part in turn. |
| LatticeModels.Flatten | beamline/models.py:181-193 | `flatten`: the leaves of the nested lists, left to right. `FlattenAppend`, `FlattenLeaves` and `FlattenMembers` state its properties. |
| LatticeModels.FlattenLeaves | beamline/models.py:188-193 | A list with no nested lists flattens to itself. |
| LatticeModels.FlattenMembers | beamline/models.py:181-193 | The flattened list holds exactly the leaves that occur in the nested lists. |
| LatticeModels.LatticeStringIsDict | beamline/models.py:167-179 | `str2dict` of `makeLatticeString(names)` is `makeLatticeDict(names)`, so either may configure the beamline element. |
| LatticeModels.LatticeString | beamline/models.py:167-171 | `makeLatticeString`. `LatticeStringIsDict` states that `str2dict` reads it as `LatticeDict`. |
| LatticeModels.LatticeDict | beamline/models.py:174-178 | `makeLatticeDict`. `LatticeDictNames` states that its value reads back, word by word, as the names. |
| LatticeModels.LatticeDictNames | beamline/models.py:174-179 | The text between the parentheses of the lattice dict splits at blanks into the names. |
| LatticeModels.Positions | beamline/models.py:84-94 | There is one position per element. |
| LatticeModels.PositionsStep | beamline/models.py:90-94 | The first element is at the start. Each next one is one length further on. |
| LatticeModels.Lengths | beamline/models.py:94 | The lengths are those `getLength` reports, in list order. |
| LatticeModels.PlacementSteps | beamline/models.py:90-94 | The computed positions start at the start position and advance by each element's length. |
| LatticeModels.LengthsKept | beamline/models.py:84-94 | Placing elements does not change their lengths. |
| LatticeModels.ByName | beamline/models.py:210-219 | The filter keeps exactly the elements with that name. |
| LatticeModels.ByNameCount | beamline/models.py:210-219 | As many elements have the name as the name list shows it. |
| LatticeModels.ListedAppend | beamline/models.py:69-73 | Appending new objects with their names keeps the counter, the name list and the object list in step. |
| LatticeModels.Models.constructor | beamline/models.py:29-45 | The mode is lower-cased and the name upper-cased. The lists are empty, and the new beamline element starts as `lattice = ()`. |
| LatticeModels.Models.Name | beamline/models.py:51-53 | The `name` property is always upper case. |
| LatticeModels.Models.SetName | beamline/models.py:55-57 | The `name` setter stores the upper-cased name. |
| LatticeModels.Models.SetMode | beamline/models.py:59-61 | The `mode` setter stores the lower-cased mode. |
| LatticeModels.Models.AddElement | beamline/models.py:63-82 | One fresh copy per flattened leaf is appended to the object list, and its name to the name list. Each copy carries its leaf's settings as they were at the call. The new total is returned. The beamline element's simulation dict stores the lattice dict of all names, and its control and misc dicts are unchanged. Every element is placed from 0. |
| LatticeModels.Models.AddLeaves | beamline/models.py:68-82 | The body of `addElement` once the arguments are flattened: one fresh copy per leaf with that leaf's settings, the lattice dict of all names stored in the beamline element's simulation dict, its control and misc dicts unchanged, every element placed from 0. |
| LatticeModels.Models.Refresh | beamline/models.py:77-80 | The beamline element's simulation dict stores the lattice dict of all names, and its control and misc dicts are unchanged. Every element is placed from 0, and the lists and each element's settings are unchanged. |
| LatticeModels.Models.AppendCopies | beamline/models.py:69-73 | The lists grow by one fresh copy per leaf, in order, and stay in step. Each copy carries its leaf's settings as they were at the call. The beamline element is not touched. |
| LatticeModels.Models.DeepCopies | beamline/models.py:70 | Each copy is a new object with the configuration of its original, all copies distinct. |
| LatticeModels.Models.InitPos | beamline/models.py:84-94 | The first element stands at `startpos`, each next one at the previous position plus the previous element's length. Lengths are unchanged. |
| LatticeModels.Models.Place | beamline/models.py:90-94 | The placing loop puts each element at its position. |
| LatticeModels.Models.GetElementsByName | beamline/models.py:210-219 | The method computes `ByName`. |
| MadParser.RefsOf | beamline/blparser.py:28-30 | The reference list has at least one entry, with no `,`, `(` or `)` left in any entry. |
| MadParser.FindChar | beamline/blparser.py:47-48 | `str.find`: the first index of the character, or -1. |
| MadParser.FindLine | beamline/blparser.py:27-31 | The loop stops at the first line that defines the beamline. |
| MadParser.ReadDefinition | beamline/blparser.py:37-41 | The search loop stops at the first line that defines the element. |
| MadParser.ReadBeamline | beamline/blparser.py:26-31 | The beamline is found exactly when some line defines it, and then the references are those of its first definition. |
| MadParser.ParseRefs | beamline/blparser.py:36-54 | The element loop yields one dict per reference, in order: the `ParseElement` dict of the line that defines it, with the intended type (see Findings). |
| MadParser.MadParser | beamline/blparser.py:11-60 | `madParser` returns `MadParse` of the file, with the intended type of each element (see Findings). |
| MadParser.ParseElementFields | beamline/blparser.py:50-53 | The keys are the parsed parameter keys plus `type` and `ID`. `ID` is the name, and `type` is the intended type `TypeOf(line)` (see Findings). Both override any parsed parameter of that name, and every other key keeps its parsed value. |
| MadParser.RefDictFields | beamline/blparser.py:46-53 | The dict of a defined reference has `ID` the reference and `type` the intended type: the text after its `:` up to the first `,` or the end (see Findings). |
| MadParser.DictsFields | beamline/blparser.py:36-54 | There is one dict per reference, each with its reference as `ID` and its intended type (see Findings). |
| MadParser.MadParseShape | beamline/blparser.py:26-58 | The parse fails exactly when no line defines the beamline. Otherwise there is one dict per reference, in order, each of a defined element with `ID` set and the intended type (see Findings). |
| MadParser.RefsOfLineText | beamline/blparser.py:28-30 | The statement `bl:line=(a,b,...)` is found and reads back as its references. |
| MadParser.TypeOfElementText | beamline/blparser.py:47-49 | The corrected type of a written element statement is the type it was written with. |
| MadParser.TokensOfElementText | beamline/blparser.py:50 | The tokens of a written element statement are its keys and values, interleaved. |
| MadParser.ParseElementReadsBack | beamline/blparser.py:47-53 | A written element statement parses back to its parameters, with `type` and `ID` set. |
| MadParser.TypeAsWrittenDiffers | beamline/blparser.py:47-49 | The type as written differs from the intended one exactly when the statement has no `,` and has text after its `:`. |
| MadParser.TypeAsWrittenDropsLast | beamline/blparser.py:47-49 | For `name:type` without parameters, the type as written loses its last character. |
| MadParser.MarkerTypeAsWritten | beamline/blparser.py:47-49 | As written, `m1:marker` gets the type `marke`, where `marker` is intended. |
| MadParser.TypeAsWritten | beamline/blparser.py:47-49 | The type slice as written. `TypeAsWrittenDiffers`, `TypeAsWrittenDropsLast` and `MarkerTypeAsWritten` exhibit the lost last character (see Findings). |
| MadParser.TypeOf | beamline/blparser.py:47-49 | The type as intended: the text after the first `:` up to the first `,` or the end. `TypeOfElementText` states it for a written element line. |
| MadParser.ParseElement | beamline/blparser.py:47-53 | The dict of an element line with the intended type. `ParseElementFields` and `ParseElementReadsBack` state its keys and values. |
| MadParser.MadParse | beamline/blparser.py:11-60 | `madParser` on the lines. `MadParseShape` states when it fails and what it returns, and `MadParser` is proved to compute it. |

## Left out

- Files are given as their sequences of lines. Opening, reading and closing files, and errors of `open`, are not modelled.
- `LteParser.__init__` and `resolvePrefix` (beamline/lattice.py:29-53) read the `%` lines of the file and solve them with the RPN solver. The model takes the resulting `sto` dict as a parameter. The `_prefixstr` record is only a kind of namespace entry.
- `file2json`, `toDict`, `dict2json`, `getKwAsJson` and `solve_rpn` are JSON serialisation and whole-file assembly. Their per-keyword parts (`KwAsDict`, `Rpn2Val`) are modelled.
- The `pyrpn` solver is the parameter `solve`. Python's `str` of a float is the parameter `show`.
- Python 2 dict iteration order (hash order) is not fixed:
  - `GetAllKws` walks the keys in an unspecified order;
  - `FormatElement` and `GenerateLatticeFile` return the key order they used as a ghost sequence.
- `ParseInt` and `ParseFloat` accept decimal literals only. `inf`, `nan`, underscores and non-ASCII digits are not modelled.
- `Lattice(elements)` given a JSON string (`json.loads`) is not modelled, only the dict form. `dumpAllElements`, `getAllEle`, `getAllBl` and `getElementConf(raw=True)` are plain accessors and are not modelled.
- `generateLatticeFile` returns its statements instead of writing them. Headers, timestamps and the file itself are not modelled.
- `formatElement` with the `mad` format leaves its result unbound. The model gives `None`.
- `getFullBeamline` has no guard against a beamline that contains itself; in Python that recursion ends in a RuntimeError. Every expansion is asked for under an acyclic ranking of the beamlines (the ghost `rank` argument), so that case is not modelled. The ranking (`Acyclic`) is required of every beamline of the lattice, unrelated ones included, and in the non-extending branch it also ranks the rinsed name of a repeated reference `N*bl`. A lattice with a self-containing beamline that the expansion never reaches is therefore outside the model too.
- MagBlock is modelled without the following:
  - the name setter (element.py:92-94): the name is fixed at construction in the model;
  - the default `name=None` (element.py:48): the name is always a string in the model. For an unnamed element the source raises AttributeError in every dump (`self.name.upper()`, element.py:313-327), and `getLength` gives 0.0 whatever `l` is (element.py:408-411). `Models.addElement` raises TypeError in `' '.join` (models.py:179) after it has already appended and counted the element. None of this is modelled;
  - drawing (`setDraw`, `showDraw`, `rot`, `copy_patches`, patches and `styledict`);
  - transfer matrices (`calcTransM`, `getMatrix`, `getR`);
  - EPICS access and `unitTrans`;
  - the `_print*` methods, `printConfig` and `__str__`;
  - `_dumpCommConf`;
  - the `format` argument of the dump methods, which the source ignores.
- `setStyleConfig` with a JSON string, and with an argument that is neither dict nor string, is not modelled. The configuration is `None` or a style table.
- `Models` is modelled without `draw`, `plotElements`, `anoteElements`, EPICS access (`getCtrlConf`, `putCtrlConf`), `getAllConfig`, `updateConfig`, `printAllElements`, the `LatticeList`/`LatticeDict` properties and `__str__`.
- Models.AppendCopies: makes all the copies first, then appends them. The source appends each copy as it is made, and the final state is the same.
- Python floats are modelled as exact reals, with no rounding and no overflow to `inf`. This affects the arithmetic of LatticeSelect.ApplyOp (and so ApplyTwiceCompounds, which holds exactly only over reals), the running sums of LatticeModels.Positions and the length conversion of MagBlocks.MagBlock.LengthIn.
- LteParser.GetKw: models the intended beamline rewrite `MarkBeamline` (see Findings). The rewrite as written is `MarkBeamlineAsWritten`, and only `MarkBeamlineAsWrittenRenames` states anything about it.
- LteParser.KwConf: uses the intended `MarkBeamline`, as GetKw does.
- LteParser.Resolve: substitutes the `sto` variables as whole words with the intended `ScanStoVars` (see Findings). The as-written `ScanStoVarsAsWritten` is stated only by `ScanStoVarsAsWrittenReplacesInsideWords`.
- LteParser.Rpn2Val: resolves each parameter with `Resolve`, so it also uses the intended whole-word substitution.
- LteParser.Rpn2ValNumbers: states the intended whole-word substitution, as Resolve does.
- MadParser.ParseRefs: gives each element the intended type `TypeOf` (see Findings). The as-written slice `TypeAsWritten` is stated only by `TypeAsWrittenDiffers`, `TypeAsWrittenDropsLast` and `MarkerTypeAsWritten`.
- MadParser.MadParser: computes `MadParse`, which uses the intended type `TypeOf`.
- MadParser.ParseElementFields: states the intended type `TypeOf(line)`, not the as-written slice.
- MadParser.RefDictFields: states the intended type, not the as-written slice.
- MadParser.DictsFields: states the intended type, not the as-written slice.
- MadParser.MadParseShape: states the intended type, not the as-written slice.
- MadParser.ParseElement: builds the dict with the intended type `TypeOf`.
- MadParser.MadParse: builds the dicts with the intended type `TypeOf`.
- LatticeFormat.BeamlineTextReadsBack: covers the beamline statement as `generateLatticeFile` writes it on one line. Reading it back from a file also goes through `getKw`'s blank collapsing, which this lemma does not cover. It also uses the intended rewrite `MarkBeamline`, not the rewrite as written at lattice.py:79-80. As written, the round trip fails when a listed name contains `line`: the last `line` of the statement lies inside that name, so the name is rewritten and the type word is not.
- LatticeFormat.BeamlineTextMarked: states the intended rewrite `MarkBeamline` (see Findings). The rewrite as written keeps the ` = ` and gives `bl    : beamline,lattice = (a  b)`. When a listed name contains `line`, it rewrites that name instead of the type word.
- BeamLattice.Lattice.constructor: requires `Resolvable`, that every keyword but `_prefixstr` has a type `getElementType` can read. For a keyword whose upper-cased form is not stored (a lower-case key in a dict passed to `Lattice(elements)`), or whose value is an empty dict, `getElementType` (lattice.py:354-357) falls into its except branch with a value that has no `upper`. The AttributeError then escapes `getAllKws` and `__init__`. That failure is not modelled.
- BeamLattice.Lattice.GetAllKws: requires `Resolvable` for the same reason. The AttributeError that `getElementType` raises on such a keyword (lattice.py:321, 354-357) is not modelled.
- `getElementsByName`'s `except` branch cannot be reached for a list of elements and is not modelled.
- madParser's "beamline not found" branch prints and calls `exit()`; the model gives `None`. The parser's `main` is not modelled.
- MadParser.MadParser: requires every referenced element to be defined. The search loop at blparser.py:37-41 only stops on a match, so the "element not found" branch at blparser.py:42-44 cannot be reached. For an undefined element the Python loop never ends.
- MadParser.RefDict: gives `{}` for an undefined reference. That value is never used under the precondition above.
- BeamLattice.Manipulated: a failure part-way through `manipulateLattice` keeps the updates made so far. The model reports the failure as a flag instead of an exception.
- LatticeSelect.Select: its own contract states only that the selection comes from the list. Each form of `irange` is stated by SelectAll, SelectIndex, SelectList, SelectRange and SelectZeroStep. Slices with negative steps or out-of-range bounds follow Python's clamping rules but have no lemma of their own.
- LatticeFormat.ElementConf: its own contract states only where a non-empty dict comes from. `FormatElement` states how it is used.
- MagBlocks.MagBlock.Length: states only where a non-zero length comes from. The value itself, including the 0.0 for a failed float conversion, is stated by MagBlocks.MagBlock.LengthIn, which it returns for the element's simulation store.

## Findings

| source | as written | input that shows it | evidently intended | confidence | as-written member | corrected member |
|---|---|---|---|---|---|---|
| beamline/lattice.py:79-80 | The statement is treated as a beamline when `line` occurs anywhere before the first `=`, and the last `line` in the lower-cased text is rewritten to `beamline,lattice`. | the element statement `xline:q` becomes `xbeamline,lattice:q` | only a statement whose type word is `line` is rewritten, and element names are kept | not executed | LteParser.MarkBeamlineAsWrittenRenames | LteParser.MarkBeamlineKeepsElement, LteParser.MarkBeamlineKeepsOthers, LteParser.MarkBeamlineRewrites, LteParser.MarkedLineReadsAsBeamline |
| beamline/lattice.py:185-187 | Every word naming a `sto` variable is replaced with `str.replace`, so it is also replaced inside longer words. | `a ab +` with `sto = {a: 1}` becomes `1 1b +` | only whole words are substituted: `1 ab +` | not executed | LteParser.ScanStoVarsAsWrittenReplacesInsideWords | LteParser.ScanStoVarsReplacesWholeWords |
| beamline/blparser.py:47-49 | The type is `elementline[idx1+1:idx2]` with `idx2 = find(',')`, which is -1 for an element without parameters, so the last character is cut off. | `m1:marker` gets the type `marke` | the whole text after `:` is the type: `marker` | not executed | MadParser.MarkerTypeAsWritten | MadParser.ParseElementReadsBack |
