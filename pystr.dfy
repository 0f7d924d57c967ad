/**
 * The Python 2 `str` operations that the beamline code relies on, over `seq<char>`.
 * Case mapping and whitespace are ASCII, as for Python 2 byte strings.
 */
module PyStr {
  import opened Wrappers
  import opened PySeq

  /** `str.isspace` on one character: space, tab, newline, vertical tab, form feed, return. */
  predicate IsSpace(c: char) { c == ' ' || ('\t' <= c <= '\r') }

  predicate NoSpace(s: string) { forall i :: 0 <= i < |s| ==> !IsSpace(s[i]) }

  /** True when `s` is empty or begins and ends with a non-blank character. */
  predicate Trimmed(s: string) { s == "" || (!IsSpace(s[0]) && !IsSpace(s[|s| - 1])) }

  predicate IsDigit(c: char) { '0' <= c <= '9' }

  function LowerChar(c: char): char { if 'A' <= c <= 'Z' then (c as int + 32) as char else c }

  function UpperChar(c: char): char { if 'a' <= c <= 'z' then (c as int - 32) as char else c }

  /** `str.lower()` */
  function Lower(s: string): (r: string)
    ensures |r| == |s|
  {
    seq(|s|, i requires 0 <= i < |s| => LowerChar(s[i]))
  }

  /** `str.upper()` */
  function Upper(s: string): (r: string)
    ensures |r| == |s|
  {
    seq(|s|, i requires 0 <= i < |s| => UpperChar(s[i]))
  }

  /** Upper-casing twice is upper-casing once. */
  lemma {:induction false} UpperIdempotent(s: string)
    ensures Upper(Upper(s)) == Upper(s)
  {
    assert forall i :: 0 <= i < |s| ==> UpperChar(UpperChar(s[i])) == UpperChar(s[i]);
  }

  /** An upper-cased string holds no lower-case ASCII letter. */
  lemma {:induction false} UpperHasNoLower(s: string, c: char)
    requires 'a' <= c <= 'z'
    ensures c !in Upper(s)
  {
    forall i | 0 <= i < |s|
      ensures Upper(s)[i] != c
    {
      assert Upper(s)[i] == UpperChar(s[i]);
    }
  }

  /** `str.lstrip()` */
  function TrimLeft(s: string): (r: string)
    ensures |r| <= |s| && r == s[|s| - |r|..]
    ensures r != "" ==> !IsSpace(r[0])
    decreases |s|
  {
    if |s| > 0 && IsSpace(s[0]) then TrimLeft(s[1..]) else s
  }

  /** `str.rstrip()` */
  function TrimRight(s: string): (r: string)
    ensures |r| <= |s| && r == s[..|r|]
    ensures r != "" ==> !IsSpace(r[|r| - 1])
    decreases |s|
  {
    if |s| > 0 && IsSpace(s[|s| - 1]) then TrimRight(s[..|s| - 1]) else s
  }

  /** `str.strip()` */
  function Strip(s: string): (r: string)
    ensures Trimmed(r)
    ensures |r| <= |s|
  {
    var t := TrimLeft(s);
    var r := TrimRight(t);
    assert r != "" ==> r[0] == t[0];
    r
  }

  /** Stripping a string that has no blank at either end leaves it as it is. */
  lemma {:induction false} StripTrimmed(s: string)
    requires Trimmed(s)
    ensures Strip(s) == s
  {
  }

  /** A leading blank is dropped by stripping. */
  lemma {:induction false} StripLeadingBlank(s: string)
    requires |s| > 0 && IsSpace(s[0])
    ensures Strip(s) == Strip(s[1..])
  {
    assert TrimLeft(s) == TrimLeft(s[1..]);
  }

  /** Stripping brings in no character. */
  lemma {:induction false} StripLacks(s: string, c: char)
    requires c !in s
    ensures c !in Strip(s)
  {
    var t := TrimLeft(s);
    assert forall x :: x in t ==> x in s;
    assert forall x :: x in TrimRight(t) ==> x in t;
  }

  /** Length of the leading run of non-blank characters. */
  function WordLen(s: string): (n: nat)
    ensures n <= |s|
    ensures forall i :: 0 <= i < n ==> !IsSpace(s[i])
    ensures n < |s| ==> IsSpace(s[n])
  {
    if |s| == 0 || IsSpace(s[0]) then 0 else 1 + WordLen(s[1..])
  }

  /** Non-empty, blank-free words. */
  predicate Words(ws: seq<string>)
  {
    forall i :: 0 <= i < |ws| ==> ws[i] != "" && NoSpace(ws[i])
  }

  lemma {:induction false} WordsCons(w: string, ws: seq<string>)
    requires w != "" && NoSpace(w) && Words(ws)
    ensures Words([w] + ws)
  {
    assert forall i :: 1 <= i < |[w] + ws| ==> ([w] + ws)[i] == ws[i - 1];
  }

  /** `str.split()` with no separator: the maximal runs of non-blank characters. */
  function SplitWs(s: string): (r: seq<string>)
    ensures Words(r)
    decreases |s|
  {
    if |s| == 0 then []
    else if IsSpace(s[0]) then SplitWs(s[1..])
    else
      var n := WordLen(s);
      var rest := SplitWs(s[n..]);
      WordsCons(s[..n], rest);
      [s[..n]] + rest
  }

  /** A string with a non-blank character has at least one word. */
  lemma {:induction false} SplitWsNonEmpty(s: string)
    requires TrimLeft(s) != ""
    ensures SplitWs(s) != []
    decreases |s|
  {
    if IsSpace(s[0]) {
      SplitWsNonEmpty(s[1..]);
    }
  }

  /** `sep.join(xs)` */
  function Join(sep: string, xs: seq<string>): (r: string)
    ensures |xs| > 0 ==> |r| >= |xs[0]|
  {
    if |xs| == 0 then ""
    else if |xs| == 1 then xs[0]
    else xs[0] + sep + Join(sep, xs[1..])
  }

  lemma {:induction false} SplitWsLeadingSpace(s: string)
    ensures SplitWs(" " + s) == SplitWs(s)
  {
    assert (" " + s)[1..] == s;
  }

  lemma {:induction false} WordLenOfWord(x: string, tail: string)
    requires NoSpace(x)
    requires tail == "" || IsSpace(tail[0])
    ensures WordLen(x + tail) == |x|
    decreases |x|
  {
    if |x| > 0 {
      assert (x + tail)[1..] == x[1..] + tail;
      WordLenOfWord(x[1..], tail);
    }
  }

  /** A leading word is split off whole. */
  lemma {:induction false} SplitWsWord(x: string, tail: string)
    requires x != "" && NoSpace(x)
    requires tail == "" || IsSpace(tail[0])
    ensures SplitWs(x + tail) == [x] + SplitWs(tail)
  {
    var s := x + tail;
    WordLenOfWord(x, tail);
    assert s[..|x|] == x;
    assert s[|x|..] == tail;
  }

  lemma {:induction false} SplitWsSingle(x: string)
    requires x != "" && NoSpace(x)
    ensures SplitWs(x) == [x]
  {
    SplitWsWord(x, "");
    assert x + "" == x;
  }

  /** Splitting a blank-joined list of non-empty, blank-free words gives the words back. */
  lemma {:induction false} SplitWsJoin(xs: seq<string>)
    requires Words(xs)
    ensures SplitWs(Join(" ", xs)) == xs
  {
    if |xs| == 1 {
      SplitWsSingle(xs[0]);
    } else if |xs| > 1 {
      var rest := Join(" ", xs[1..]);
      calc {
        SplitWs(Join(" ", xs));
        { assert Join(" ", xs) == xs[0] + (" " + rest); }
        SplitWs(xs[0] + (" " + rest));
        { SplitWsWord(xs[0], " " + rest); }
        [xs[0]] + SplitWs(" " + rest);
        { SplitWsLeadingSpace(rest); }
        [xs[0]] + SplitWs(rest);
        { SplitWsJoin(xs[1..]); }
        [xs[0]] + xs[1..];
        xs;
      }
    }
  }

  /** `s.split(c)` for a one-character separator. */
  function Split(s: string, c: char): (r: seq<string>)
    ensures |r| >= 1
    ensures (|r| == 1) == (c !in s)
    ensures r[0] == s[..IndexOfChar(s, c)]
    ensures forall i :: 0 <= i < |r| ==> c !in r[i]
  {
    if |s| == 0 then [""]
    else
      var r := Split(s[1..], c);
      assert s == [s[0]] + s[1..];
      if s[0] == c then [""] + r
      else
        assert s[..1 + IndexOfChar(s[1..], c)] == [s[0]] + s[1..][..IndexOfChar(s[1..], c)];
        [[s[0]] + r[0]] + r[1..]
  }

  /** Every piece of a split is made of characters of the string. */
  lemma {:induction false} SplitPieces(s: string, c: char)
    ensures forall i :: 0 <= i < |Split(s, c)| ==> forall x :: x in Split(s, c)[i] ==> x in s
  {
    if |s| > 0 {
      SplitPieces(s[1..], c);
      assert forall x :: x in s[1..] ==> x in s;
    }
  }

  /** A string without the separator is not split. */
  lemma {:induction false} SplitNone(s: string, c: char)
    requires c !in s
    ensures Split(s, c) == [s]
  {
    if |s| > 0 {
      SplitNone(s[1..], c);
      assert [s[0]] + s[1..] == s;
    }
  }

  /** Splitting at the first separator: the piece before it, then the split of the rest. */
  lemma {:induction false} SplitFirst(a: string, c: char, b: string)
    requires c !in a
    ensures Split(a + [c] + b, c) == [a] + Split(b, c)
  {
    if |a| == 0 {
      assert (a + [c] + b)[1..] == b;
    } else {
      assert (a + [c] + b)[1..] == a[1..] + [c] + b;
      SplitFirst(a[1..], c, b);
      assert [a[0]] + a[1..] == a;
    }
  }

  /** `Split` undoes `Join` when no piece holds the separator. */
  lemma {:induction false} SplitJoin(xs: seq<string>, c: char)
    requires |xs| >= 1
    requires forall i :: 0 <= i < |xs| ==> c !in xs[i]
    ensures Split(Join([c], xs), c) == xs
  {
    if |xs| == 1 {
      SplitNone(xs[0], c);
    } else {
      var rest := Join([c], xs[1..]);
      assert Join([c], xs) == xs[0] + [c] + rest;
      SplitFirst(xs[0], c, rest);
      SplitJoin(xs[1..], c);
      assert [xs[0]] + xs[1..] == xs;
    }
  }

  /** `Join` undoes `Split`. */
  lemma {:induction false} JoinSplit(s: string, c: char)
    ensures Join([c], Split(s, c)) == s
  {
    if |s| > 0 {
      JoinSplit(s[1..], c);
      var r := Split(s[1..], c);
      if s[0] != c {
        if |r| > 1 {
          assert Join([c], Split(s, c)) == [s[0]] + (r[0] + [c] + Join([c], r[1..]));
        }
        assert [s[0]] + s[1..] == s;
      }
    }
  }

  /** `pat` occurs in `s` at index `j`. */
  predicate At(s: string, j: nat, pat: string)
  {
    j + |pat| <= |s| && s[j..j + |pat|] == pat
  }

  /** `s.find(pat)`: the index of the first occurrence of `pat`, or -1. */
  function Find(s: string, pat: string): (r: int)
    ensures -1 <= r <= |s|
    ensures r >= 0 ==> At(s, r, pat)
    ensures r >= 0 ==> forall j: nat :: j < r ==> !At(s, j, pat)
    ensures r < 0 ==> forall j: nat :: !At(s, j, pat)
    decreases |s|
  {
    if |s| < |pat| then -1
    else if s[..|pat|] == pat then 0
    else
      var r := Find(s[1..], pat);
      assert !At(s, 0, pat) by { assert s[0..|pat|] == s[..|pat|]; }
      assert forall j: nat :: j > 0 ==> (At(s, j, pat) <==> At(s[1..], j - 1, pat)) by {
        forall j: nat | j > 0 ensures At(s, j, pat) <==> At(s[1..], j - 1, pat) {
          if j + |pat| <= |s| {
            var a, b := s[j..j + |pat|], s[1..][j - 1..j - 1 + |pat|];
            assert forall t :: 0 <= t < |pat| ==> a[t] == s[j + t] == b[t];
            assert a == b;
          }
        }
      }
      if r < 0 then -1 else r + 1
  }

  /** An occurrence whose first character does not appear earlier is the first occurrence. */
  lemma {:induction false} FindFirstAt(s: string, k: nat, pat: string)
    requires |pat| > 0 && k <= |s| && pat[0] !in s[..k] && At(s, k, pat)
    ensures Find(s, pat) == k
  {
  }

  /** A pattern whose first character does not appear is not found. */
  lemma {:induction false} FindAbsent(s: string, pat: string)
    requires |pat| > 0 && pat[0] !in s
    ensures Find(s, pat) == -1
  {
  }

  /** `pat in s` for strings. */
  predicate Contains(s: string, pat: string) { Find(s, pat) >= 0 }

  lemma {:induction false} ContainsAt(s: string, k: nat, pat: string)
    requires At(s, k, pat)
    ensures Contains(s, pat)
  {
  }

  predicate StartsWith(s: string, prefix: string)
  {
    |prefix| <= |s| && s[..|prefix|] == prefix
  }

  /** `s.split(pat)` for a separator of any non-zero length. */
  function SplitOn(s: string, pat: string): (r: seq<string>)
    requires |pat| > 0
    ensures |r| >= 1
    decreases |s|
  {
    var i := Find(s, pat);
    if i < 0 then [s] else [s[..i]] + SplitOn(s[i + |pat|..], pat)
  }

  /** `s.replace(pat, rep)`: every non-overlapping occurrence, left to right. */
  function ReplaceAll(s: string, pat: string, rep: string): string
    requires |pat| > 0
    decreases |s|
  {
    var i := Find(s, pat);
    if i < 0 then s else s[..i] + rep + ReplaceAll(s[i + |pat|..], pat, rep)
  }

  /** `s.replace(pat, rep, 1)` */
  function ReplaceFirst(s: string, pat: string, rep: string): string
  {
    var i := Find(s, pat);
    if i < 0 then s else s[..i] + rep + s[i + |pat|..]
  }

  /** Replacing the first occurrence, when it is known to sit at `k`. */
  lemma {:induction false} ReplaceFirstAt(s: string, k: nat, pat: string, rep: string)
    requires |pat| > 0 && k <= |s| && pat[0] !in s[..k] && At(s, k, pat)
    ensures ReplaceFirst(s, pat, rep) == s[..k] + rep + s[k + |pat|..]
  {
    FindFirstAt(s, k, pat);
  }

  /** `s.replace(a, b)` for single characters. */
  function ReplaceChar(s: string, a: char, b: char): (r: string)
    ensures |r| == |s|
    ensures a != b ==> a !in r
  {
    seq(|s|, i requires 0 <= i < |s| => if s[i] == a then b else s[i])
  }

  /** `s.replace(c, '')` */
  function RemoveChar(s: string, c: char): (r: string)
    ensures c !in r
    ensures |r| <= |s|
    ensures forall x :: x in r ==> x in s
  {
    if |s| == 0 then ""
    else (if s[0] == c then "" else [s[0]]) + RemoveChar(s[1..], c)
  }

  /** Removing a character that does not occur changes nothing. */
  lemma {:induction false} RemoveAbsent(s: string, c: char)
    requires c !in s
    ensures RemoveChar(s, c) == s
  {
    if |s| > 0 {
      RemoveAbsent(s[1..], c);
      assert [s[0]] + s[1..] == s;
    }
  }

  /** `''.join(s.split())`: the string with every blank removed. */
  function RemoveWs(s: string): (r: string)
    ensures NoSpace(r)
    ensures |r| <= |s|
  {
    if |s| == 0 then ""
    else (if IsSpace(s[0]) then "" else [s[0]]) + RemoveWs(s[1..])
  }

  /** Removing the blanks of a blank-free string leaves it as it is. */
  lemma {:induction false} RemoveWsNoSpace(s: string)
    requires NoSpace(s)
    ensures RemoveWs(s) == s
  {
    if |s| > 0 {
      RemoveWsNoSpace(s[1..]);
      assert [s[0]] + s[1..] == s;
    }
  }

  /** `s[::-1]` */
  function Reverse(s: string): (r: string)
    ensures |r| == |s|
  {
    seq(|s|, i requires 0 <= i < |s| => s[|s| - 1 - i])
  }

  /** `s.strip(c)` for one character. */
  function StripChar(s: string, c: char): (r: string)
    ensures |r| <= |s|
    decreases |s|
  {
    if |s| > 0 && s[0] == c then StripChar(s[1..], c)
    else if |s| > 0 && s[|s| - 1] == c then StripChar(s[..|s| - 1], c)
    else s
  }

  /** `s[i:j]` with Python's treatment of negative and out-of-range bounds. */
  function SliceStr(s: string, i: int, j: int): (r: string)
    ensures |r| <= |s|
  {
    var lo := ClampIndex(i, |s|);
    var hi := ClampIndex(j, |s|);
    if lo < hi then s[lo..hi] else ""
  }

  /** A slice bound after Python's normalisation for step 1. */
  function ClampIndex(i: int, n: nat): (k: nat)
    ensures k <= n
  {
    if i < 0 then (if i + n < 0 then 0 else i + n) else if i > n then n else i
  }

  function Spaces(n: nat): (r: string)
    ensures |r| == n && forall i :: 0 <= i < n ==> r[i] == ' '
  {
    if n == 0 then "" else " " + Spaces(n - 1)
  }

  /** `'{:<w}'.format(s)`: left-justified in a field of width `w`. */
  function PadRight(s: string, w: nat): string
  {
    if |s| >= w then s else s + Spaces(w - |s|)
  }

  /** `'{:>w}'.format(s)`: right-justified in a field of width `w`. */
  function PadLeft(s: string, w: nat): string
  {
    if |s| >= w then s else Spaces(w - |s|) + s
  }

  /** `str.isdigit()` (ASCII digits, at least one). */
  predicate IsDigits(s: string)
  {
    |s| > 0 && forall i :: 0 <= i < |s| ==> IsDigit(s[i])
  }

  predicate AllDigits(s: string)
  {
    forall i :: 0 <= i < |s| ==> IsDigit(s[i])
  }

  /** The number a string of decimal digits denotes. */
  function DigitsValue(s: string): nat
    requires AllDigits(s)
  {
    if |s| == 0 then 0
    else 10 * DigitsValue(s[..|s| - 1]) + (s[|s| - 1] as int - '0' as int)
  }

  /** A magnitude under a leading `+` or `-`. */
  function Signed(sign: char, n: nat): int
  {
    if sign == '-' then -(n as int) else n
  }

  /** `int(s)`: optional surrounding blanks, an optional sign, then decimal digits. */
  function ParseInt(s: string): Option<int>
  {
    var t := Strip(s);
    if |t| > 0 && (t[0] == '-' || t[0] == '+') then
      if IsDigits(t[1..]) then Some(Signed(t[0], DigitsValue(t[1..])))
      else None
    else if IsDigits(t) then Some(DigitsValue(t))
    else None
  }

  function Pow10(n: nat): (r: real)
    ensures r >= 1.0
  {
    if n == 0 then 1.0 else 10.0 * Pow10(n - 1)
  }

  /** Index of the first character satisfying `p`, or `|s|`. */
  function IndexOfChar(s: string, c: char): (k: nat)
    ensures k <= |s|
    ensures forall i :: 0 <= i < k ==> s[i] != c
    ensures k < |s| ==> s[k] == c
  {
    if |s| == 0 || s[0] == c then 0 else 1 + IndexOfChar(s[1..], c)
  }

  /** Digits with an optional decimal point, at least one digit: `12`, `1.5`, `.5`, `5.`. */
  function ParseMantissa(m: string): Option<real>
  {
    var d := IndexOfChar(m, '.');
    if d == |m| then
      if IsDigits(m) then Some(DigitsValue(m) as real) else None
    else
      var a, b := m[..d], m[d + 1..];
      if |a| + |b| > 0 && AllDigits(a) && AllDigits(b)
      then Some(DigitsValue(a) as real + DigitsValue(b) as real / Pow10(|b|))
      else None
  }

  /** A signed decimal exponent. */
  function ParseExponent(e: string): Option<int>
  {
    if |e| > 0 && (e[0] == '-' || e[0] == '+') then
      if IsDigits(e[1..]) then Some(Signed(e[0], DigitsValue(e[1..])))
      else None
    else if IsDigits(e) then Some(DigitsValue(e))
    else None
  }

  function Scale(x: real, e: int): real
  {
    if e >= 0 then x * Pow10(e) else x / Pow10(-e)
  }

  /** An unsigned decimal literal with an optional exponent. */
  function ParseUnsignedFloat(t: string): Option<real>
  {
    var i := IndexOfChar(Lower(t), 'e');
    var m := ParseMantissa(t[..i]);
    if m.None? then None
    else if i == |t| then m
    else
      var e := ParseExponent(t[i + 1..]);
      if e.None? then None else Some(Scale(m.value, e.value))
  }

  /** `float(s)` for finite decimal literals: blanks, a sign, a mantissa, an optional exponent. */
  function ParseFloat(s: string): Option<real>
  {
    var t := Strip(s);
    if |t| > 0 && (t[0] == '-' || t[0] == '+') then
      var u := ParseUnsignedFloat(t[1..]);
      if u.None? then None else Some(if t[0] == '-' then -u.value else u.value)
    else ParseUnsignedFloat(t)
  }

  // ------------------------------------------------------------------ small facts about the operations above

  lemma {:induction false} LowerNoCapitals(s: string)
    requires forall i :: 0 <= i < |s| ==> !('A' <= s[i] <= 'Z')
    ensures Lower(s) == s
  {
  }

  lemma {:induction false} IndexOfCharAt(s: string, c: char, k: nat)
    requires k <= |s| && c !in s[..k] && (k < |s| ==> s[k] == c)
    ensures IndexOfChar(s, c) == k
  {
  }

  lemma {:induction false} ReplaceCharConcat(a: string, b: string, x: char, y: char)
    ensures ReplaceChar(a + b, x, y) == ReplaceChar(a, x, y) + ReplaceChar(b, x, y)
  {
  }

  lemma {:induction false} ReplaceCharAbsent(a: string, x: char, y: char)
    requires x !in a
    ensures ReplaceChar(a, x, y) == a
  {
  }

  /** The text `k1=v1,k2=v2,...` of a list of pairs. */
  function KeyValueText(ps: seq<(string, string)>): string
  {
    Join(",", seq(|ps|, i requires 0 <= i < |ps| => ps[i].0 + "=" + ps[i].1))
  }

  lemma {:induction false} KeyValueTextCons(ps: seq<(string, string)>)
    requires |ps| >= 2
    ensures KeyValueText(ps) == ps[0].0 + "=" + ps[0].1 + "," + KeyValueText(ps[1..])
  {
    var items := seq(|ps|, i requires 0 <= i < |ps| => ps[i].0 + "=" + ps[i].1);
    var rest := ps[1..];
    assert items[1..] == seq(|rest|, i requires 0 <= i < |rest| => rest[i].0 + "=" + rest[i].1);
  }

  /** The interleaved keys and values of two or more pairs, joined: the first pair, then the rest. */
  lemma {:induction false} InterleavedCons(sep: string, ps: seq<(string, string)>)
    requires |ps| >= 2
    ensures Join(sep, Interleaved(ps)) == ps[0].0 + sep + ps[0].1 + sep + Join(sep, Interleaved(ps[1..]))
  {
    var rest := Interleaved(ps[1..]);
    assert Interleaved(ps)[2..] == rest;
    assert Interleaved(ps) == [ps[0].0] + ([ps[0].1] + rest);
    assert Join(sep, [ps[0].1] + rest) == ps[0].1 + sep + Join(sep, rest) by {
      assert ([ps[0].1] + rest)[1..] == rest;
    }
    assert ([ps[0].0] + ([ps[0].1] + rest))[1..] == [ps[0].1] + rest;
  }

  /** A pattern holding a character that `s` lacks is not found. */
  lemma {:induction false} FindMissing(s: string, pat: string, c: char)
    requires c in pat && c !in s
    ensures Find(s, pat) == -1
  {
    var k :| 0 <= k < |pat| && pat[k] == c;
    forall j: nat ensures !At(s, j, pat) {
      if j + |pat| <= |s| {
        assert s[j..j + |pat|][k] == s[j + k];
      }
    }
  }

  /** Replacing a pattern that opens the string, and does not occur again, removes just that occurrence. */
  lemma {:induction false} ReplacePrefix(pat: string, rest: string)
    requires |pat| > 0 && Find(rest, pat) == -1
    ensures ReplaceAll(pat + rest, pat, "") == rest
  {
    var s := pat + rest;
    assert s[..|pat|] == pat;
    assert s[|pat|..] == rest;
  }

  lemma {:induction false} RemoveCharConcat(a: string, b: string, c: char)
    ensures RemoveChar(a + b, c) == RemoveChar(a, c) + RemoveChar(b, c)
  {
    if |a| > 0 {
      assert (a + b)[1..] == a[1..] + b;
      RemoveCharConcat(a[1..], b, c);
    } else {
      assert a + b == b;
    }
  }

  /** A character in neither the separator nor any piece is not in the joined text. */
  lemma {:induction false} JoinLacks(sep: string, xs: seq<string>, c: char)
    requires c !in sep && forall i :: 0 <= i < |xs| ==> c !in xs[i]
    ensures c !in Join(sep, xs)
  {
    if |xs| > 1 {
      JoinLacks(sep, xs[1..], c);
    }
  }
}
