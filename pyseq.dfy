/** The Python list and dict idioms the beamline code relies on, over `seq` and `map`. */
module PySeq {
  import opened Wrappers

  /** `xs * n` */
  function Repeat<T>(xs: seq<T>, n: nat): (r: seq<T>)
    ensures forall x :: x in r ==> x in xs
  {
    if n == 0 then [] else xs + Repeat(xs, n - 1)
  }

  /** `len(xs * n) == n * len(xs)` */
  lemma {:induction false} RepeatLength<T>(xs: seq<T>, n: nat)
    ensures |Repeat(xs, n)| == n * |xs|
  {
    if n > 0 {
      RepeatLength(xs, n - 1);
      calc {
        |Repeat(xs, n)|;
        |xs| + (n - 1) * |xs|;
        n * |xs|;
      }
    }
  }

  /** Repeating once is the identity. */
  lemma {:induction false} RepeatOnce<T>(xs: seq<T>)
    ensures Repeat(xs, 1) == xs
  {
    assert xs + [] == xs;
  }

  /** `zip(xs[0::2], xs[1::2])`: consecutive items paired, a trailing odd item dropped. */
  function Pairs<T>(xs: seq<T>): (r: seq<(T, T)>)
    ensures |r| == |xs| / 2
    ensures forall i :: 0 <= i < |r| ==> r[i] == (xs[2 * i], xs[2 * i + 1])
  {
    if |xs| < 2 then [] else [(xs[0], xs[1])] + Pairs(xs[2..])
  }

  /** `[f(x) for x in xs]` */
  function MapSeq<A, B>(xs: seq<A>, f: A -> B): (r: seq<B>)
    ensures |r| == |xs| && forall i :: 0 <= i < |xs| ==> r[i] == f(xs[i])
  {
    seq(|xs|, i requires 0 <= i < |xs| => f(xs[i]))
  }

  /** Mapping one more item appends its image. */
  lemma {:induction false} MapSeqSnoc<A, B>(xs: seq<A>, f: A -> B, i: nat)
    requires i < |xs|
    ensures MapSeq(xs[..i + 1], f) == MapSeq(xs[..i], f) + [f(xs[i])]
  {
    assert forall j :: 0 <= j <= i ==> xs[..i + 1][j] == xs[j];
    assert forall j :: 0 <= j < i ==> xs[..i][j] == xs[j];
  }

  /** Keys and values alternately: `[k0, v0, k1, v1, ...]`. */
  function Interleaved<T>(ps: seq<(T, T)>): (r: seq<T>)
    ensures |r| == 2 * |ps|
  {
    seq(2 * |ps|, j requires 0 <= j < 2 * |ps| => if j % 2 == 0 then ps[j / 2].0 else ps[j / 2].1)
  }

  /** Pairing the interleaved list gives the pairs back. */
  lemma {:induction false} PairsInterleaved<T>(ps: seq<(T, T)>)
    ensures Pairs(Interleaved(ps)) == ps
  {
    var r := Pairs(Interleaved(ps));
    assert |r| == |ps|;
    forall i | 0 <= i < |ps| ensures r[i] == ps[i] {
      assert (2 * i) / 2 == i && (2 * i + 1) / 2 == i;
      assert (2 * i) % 2 == 0 && (2 * i + 1) % 2 == 1;
    }
  }

  /** No element occurs twice. */
  predicate Distinct<T(==)>(xs: seq<T>)
  {
    forall i, j :: 0 <= i < j < |xs| ==> xs[i] != xs[j]
  }

  /** `set(xs)` */
  function SetOf<T>(xs: seq<T>): set<T>
  {
    set x | x in xs
  }

  /** `dict(pairs)`: a later pair for the same key overrides an earlier one. */
  function DictOf<K, V>(ps: seq<(K, V)>): (m: map<K, V>)
    ensures m.Keys == set i | 0 <= i < |ps| :: ps[i].0
  {
    if |ps| == 0 then map[]
    else DictOf(ps[..|ps| - 1])[ps[|ps| - 1].0 := ps[|ps| - 1].1]
  }

  /** The keys of `ps` are pairwise distinct. */
  predicate DistinctKeys<K(==), V>(ps: seq<(K, V)>)
  {
    forall i, j :: 0 <= i < j < |ps| ==> ps[i].0 != ps[j].0
  }

  /** With distinct keys, `dict(pairs)` maps every key to its own value. */
  lemma {:induction false} DictOfDistinct<K, V>(ps: seq<(K, V)>)
    requires DistinctKeys(ps)
    ensures forall i :: 0 <= i < |ps| ==> DictOf(ps)[ps[i].0] == ps[i].1
  {
    if |ps| > 0 {
      DictOfDistinct(ps[..|ps| - 1]);
    }
  }

  /** `[f(x) for x in xs]` where each call may raise: `None` as soon as one does. */
  function MapAll<A, B>(f: A -> Option<B>, xs: seq<A>): (r: Option<seq<B>>)
    ensures r.Some? <==> forall i :: 0 <= i < |xs| ==> f(xs[i]).Some?
    ensures r.Some? ==> |r.value| == |xs| && forall i :: 0 <= i < |xs| ==> f(xs[i]) == Some(r.value[i])
  {
    if |xs| == 0 then Some([])
    else
      var init := MapAll(f, xs[..|xs| - 1]);
      var last := f(xs[|xs| - 1]);
      assert forall i :: 0 <= i < |xs| - 1 ==> xs[..|xs| - 1][i] == xs[i];
      if init.None? || last.None? then None else Some(init.value + [last.value])
  }

  /** Two calls that both succeed map a pair to the pair of their results. */
  lemma {:induction false} MapAllPair<A, B>(f: A -> Option<B>, a: A, b: A, x: B, y: B)
    requires f(a) == Some(x) && f(b) == Some(y)
    ensures MapAll(f, [a, b]) == Some([x, y])
  {
    var r := MapAll(f, [a, b]);
    assert [a, b][0] == a && [a, b][1] == b;
    assert r.Some? && r.value[0] == x && r.value[1] == y;
    assert r.value == [x, y];
  }

  /** `xs[k]` with Python's negative indexing; `None` stands for IndexError. */
  function PyIndex<T>(xs: seq<T>, k: int): (r: Option<T>)
    ensures r.Some? <==> -|xs| <= k < |xs|
    ensures 0 <= k < |xs| ==> r == Some(xs[k])
    ensures -|xs| <= k < 0 ==> r == Some(xs[|xs| + k])
  {
    if 0 <= k < |xs| then Some(xs[k])
    else if -|xs| <= k < 0 then Some(xs[|xs| + k])
    else None
  }

  /** Items `xs[i], xs[i + step], ...` strictly below `hi`. */
  function SliceUp<T>(xs: seq<T>, i: nat, hi: nat, step: nat): (r: seq<T>)
    requires step > 0 && hi <= |xs|
    ensures forall x :: x in r ==> x in xs
    decreases hi - i
  {
    if i >= hi then [] else [xs[i]] + SliceUp(xs, i + step, hi, step)
  }

  /** Items `xs[i], xs[i + step], ...` strictly above `lo`, for a negative step. */
  function SliceDown<T>(xs: seq<T>, i: int, lo: int, step: int): (r: seq<T>)
    requires step < 0 && -1 <= lo && i < |xs|
    ensures forall x :: x in r ==> x in xs
    decreases i - lo
  {
    if i <= lo then [] else [xs[i]] + SliceDown(xs, i + step, lo, step)
  }

  /** A bound of a slice with a positive step, normalised into `[0, n]`. */
  function UpBound(i: int, n: nat): (k: nat)
    ensures k <= n
  {
    if i < 0 then (if i + n < 0 then 0 else i + n) else if i > n then n else i
  }

  /** A bound of a slice with a negative step, normalised into `[-1, n - 1]`. */
  function DownBound(i: int, n: nat): (k: int)
    ensures -1 <= k < n
  {
    if i < 0 then (if i + n < 0 then -1 else i + n) else if i >= n then n - 1 else i
  }

  /** `xs[start:stop:step]`; `None` stands for the ValueError of a zero step. */
  function PySlice<T>(xs: seq<T>, start: int, stop: int, step: int): (r: Option<seq<T>>)
    ensures r.None? <==> step == 0
    ensures r.Some? ==> forall x :: x in r.value ==> x in xs
  {
    if step == 0 then None
    else if step > 0 then Some(SliceUp(xs, UpBound(start, |xs|), UpBound(stop, |xs|), step))
    else Some(SliceDown(xs, DownBound(start, |xs|), DownBound(stop, |xs|), step))
  }

  lemma {:induction false} SliceUpContiguous<T>(xs: seq<T>, i: nat, hi: nat)
    requires i <= hi <= |xs|
    ensures SliceUp(xs, i, hi, 1) == xs[i..hi]
    decreases hi - i
  {
    if i < hi {
      SliceUpContiguous(xs, i + 1, hi);
    }
  }

  /** A slice `start:stop` with in-range bounds is the contiguous run between them. */
  lemma {:induction false} PySliceContiguous<T>(xs: seq<T>, start: nat, stop: nat)
    requires start <= stop <= |xs|
    ensures PySlice(xs, start, stop, 1) == Some(xs[start..stop])
  {
    SliceUpContiguous(xs, start, stop);
  }

  /** Number of occurrences of `x` in `xs`. */
  function Count<T(==)>(xs: seq<T>, x: T): (n: nat)
    ensures n <= |xs|
  {
    if |xs| == 0 then 0 else Count(xs[..|xs| - 1], x) + (if xs[|xs| - 1] == x then 1 else 0)
  }

  /** The items of `xs` satisfying `p`, in order. */
  function Filter<T>(xs: seq<T>, p: T -> bool): (r: seq<T>)
    ensures |r| <= |xs|
    ensures forall x :: x in r ==> x in xs && p(x)
    ensures forall x :: x in xs && p(x) ==> x in r
  {
    if |xs| == 0 then [] else Filter(xs[..|xs| - 1], p) + (if p(xs[|xs| - 1]) then [xs[|xs| - 1]] else [])
  }

  /** Filtering a list whose items all pass keeps the list. */
  lemma {:induction false} FilterAll<T>(xs: seq<T>, p: T -> bool)
    requires forall i :: 0 <= i < |xs| ==> p(xs[i])
    ensures Filter(xs, p) == xs
    decreases |xs|
  {
    if |xs| > 0 {
      FilterAll(xs[..|xs| - 1], p);
      assert xs[..|xs| - 1] + [xs[|xs| - 1]] == xs;
    }
  }

  /** The pieces `f` gives for each item of `xs`, concatenated in order. */
  function FlatMap<A, B>(xs: seq<A>, f: A -> seq<B>): seq<B>
  {
    if |xs| == 0 then [] else FlatMap(xs[..|xs| - 1], f) + f(xs[|xs| - 1])
  }

  /** When each item gives at most one piece, a piece is there exactly when some item gives it. */
  lemma {:induction false} FlatMapMember<A, B>(xs: seq<A>, f: A -> seq<B>, y: B)
    requires forall x :: |f(x)| <= 1
    ensures y in FlatMap(xs, f) <==> exists k :: 0 <= k < |xs| && f(xs[k]) == [y]
  {
    if |xs| > 0 {
      var init, last := xs[..|xs| - 1], xs[|xs| - 1];
      FlatMapMember(init, f, y);
      if y in FlatMap(init, f) {
        var k :| 0 <= k < |init| && f(init[k]) == [y];
        assert xs[k] == init[k];
      } else if y in f(last) {
        assert f(xs[|xs| - 1]) == [y];
      }
      if k :| 0 <= k < |xs| && f(xs[k]) == [y] {
        if k < |init| {
          assert init[k] == xs[k];
        }
      }
    }
  }

  lemma {:induction false} FlatMapConcat<A, B>(a: seq<A>, b: seq<A>, f: A -> seq<B>)
    ensures FlatMap(a + b, f) == FlatMap(a, f) + FlatMap(b, f)
  {
    if |b| == 0 {
      assert a + b == a;
    } else {
      assert (a + b)[..|a + b| - 1] == a + b[..|b| - 1];
      assert (a + b)[|a + b| - 1] == b[|b| - 1];
      FlatMapConcat(a, b[..|b| - 1], f);
    }
  }

  /** `p` holds of each entry of `ys` and `zs` with the item of `xs` at the same place. */
  ghost predicate AllHold<A, B, C>(p: (A, B, C) -> bool, xs: seq<A>, ys: seq<B>, zs: seq<C>)
  {
    && |ys| == |zs| <= |xs|
    && forall j :: 0 <= j < |ys| ==> p(xs[j], ys[j], zs[j])
  }

  lemma {:induction false} AllHoldSnoc<A, B, C>(p: (A, B, C) -> bool, xs: seq<A>, ys: seq<B>, zs: seq<C>, y: B, z: C)
    requires AllHold(p, xs, ys, zs) && |ys| < |xs| && p(xs[|ys|], y, z)
    ensures AllHold(p, xs, ys + [y], zs + [z])
  {
    var ys', zs' := ys + [y], zs + [z];
    forall j | 0 <= j < |ys'|
      ensures p(xs[j], ys'[j], zs'[j])
    {
      if j < |ys| {
        assert ys'[j] == ys[j] && zs'[j] == zs[j];
      }
    }
  }

  lemma {:induction false} TakeDrop<T>(s: seq<T>, i: nat)
    requires i <= |s|
    ensures s[..i] + s[i..] == s
  {
  }

  /** The index of the first item satisfying `p`, or `|xs|` when there is none. */
  function FirstWhere<T>(xs: seq<T>, p: T -> bool): (k: nat)
    ensures k <= |xs|
    ensures forall j :: 0 <= j < k ==> !p(xs[j])
    ensures k < |xs| ==> p(xs[k])
    decreases |xs|
  {
    if |xs| == 0 || p(xs[0]) then 0 else 1 + FirstWhere(xs[1..], p)
  }

  /** An item before the first match does not match: the search goes on past it. */
  lemma {:induction false} FirstWhereNext<T>(xs: seq<T>, p: T -> bool, j: nat)
    requires j <= FirstWhere(xs, p) && j < |xs| && !p(xs[j])
    ensures j < FirstWhere(xs, p)
  {
  }

  /** A match reached without passing the first one is the first one. */
  lemma {:induction false} FirstWhereFound<T>(xs: seq<T>, p: T -> bool, j: nat)
    requires j <= FirstWhere(xs, p) && j < |xs| && p(xs[j])
    ensures j == FirstWhere(xs, p)
  {
  }
}
