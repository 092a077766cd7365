/** The first/last search `_train_test_split_idx_country` performs with
    `Series.idxmax` on the "label present" mask of one country's rows, the
    last one on the reversed Series, and what those searches find. */
module Search {
  import opened DataFrame

  /** A boolean Series: values together with their index labels. */
  datatype Series = Series(index: seq<nat>, values: seq<bool>)

  /** The elements of `s`, last one first. */
  function Reverse<T>(s: seq<T>): (r: seq<T>)
    ensures |r| == |s|
    ensures forall k :: 0 <= k < |s| ==> r[k] == s[|s| - 1 - k]
  {
    seq(|s|, k requires 0 <= k < |s| => s[|s| - 1 - k])
  }

  /** `series[::-1]`: the same labelled values, last one first. */
  function Reversed(s: Series): Series
  {
    Series(Reverse(s.index), Reverse(s.values))
  }

  /** The position of the first `True` at or after `i`, or `|v|` if there is
      none. */
  function FirstTrueFrom(v: seq<bool>, i: nat): (k: nat)
    requires i <= |v|
    ensures i <= k <= |v|
    ensures forall j :: i <= j < k ==> !v[j]
    ensures k < |v| ==> v[k]
    decreases |v| - i
  {
    if i == |v| || v[i] then i else FirstTrueFrom(v, i + 1)
  }

  /** `argmax` on booleans: the position of the first `True`, or `0` when
      every value is `False` (each one is then a maximum, and the first
      maximum wins). */
  function ArgMax(v: seq<bool>): (k: nat)
    requires |v| > 0
    ensures k < |v|
    ensures forall j :: 0 <= j < k ==> !v[j]
    ensures !v[k] ==> k == 0 && forall j :: 0 <= j < |v| ==> !v[j]
  {
    var k := FirstTrueFrom(v, 0);
    if k == |v| then 0 else k
  }

  /** `Series.idxmax`: the label of the first maximum. */
  function IdxMax(s: Series): nat
    requires |s.index| == |s.values| > 0
  {
    s.index[ArgMax(s.values)]
  }

  /** The label the reversed search returns, read off the unreversed Series. */
  lemma IdxMaxReversed(s: Series)
    requires |s.index| == |s.values| > 0
    ensures IdxMax(Reversed(s)) == s.index[|s.values| - 1 - ArgMax(Reverse(s.values))]
  {
  }

  /** Searching the reversed values finds the LAST `True`, or the last
      position when every value is `False`; that position is never before
      the one the forward search finds. */
  lemma ReversedArgMax(v: seq<bool>)
    requires |v| > 0
    ensures var k := |v| - 1 - ArgMax(Reverse(v));
      && 0 <= k < |v|
      && (forall j :: k < j < |v| ==> !v[j])
      && (!v[k] ==> k == |v| - 1 && forall j :: 0 <= j < |v| ==> !v[j])
      && ArgMax(v) <= k
  {
    var rv := Reverse(v);
    var k := |v| - 1 - ArgMax(rv);
    forall j | k < j < |v|
      ensures !v[j]
    {
      assert rv[|v| - 1 - j] == v[j];
    }
    if !v[k] {
      assert !rv[ArgMax(rv)];
      forall j | 0 <= j < |v|
        ensures !v[j]
      {
        assert rv[|v| - 1 - j] == v[j];
      }
    }
    assert v[ArgMax(v)] ==> ArgMax(v) <= k;
  }

  /** Some row of country `c` has its target label. */
  ghost predicate HasLabelledRow(t: Table, c: string)
  {
    exists i :: 0 <= i < |t| && t[i].country == c && IsLabelled(t[i])
  }

  /** Row `s` is the first labelled row of country `c`. */
  ghost predicate IsFirstLabelled(t: Table, c: string, s: int)
  {
    && 0 <= s < |t| && t[s].country == c && IsLabelled(t[s])
    && forall i :: 0 <= i < s && t[i].country == c ==> !IsLabelled(t[i])
  }

  /** Row `e` is the last labelled row of country `c`. */
  ghost predicate IsLastLabelled(t: Table, c: string, e: int)
  {
    && 0 <= e < |t| && t[e].country == c && IsLabelled(t[e])
    && forall i :: e < i < |t| && t[i].country == c ==> !IsLabelled(t[i])
  }

  /** Row `s` is the first row of country `c`. */
  ghost predicate IsFirstRow(t: Table, c: string, s: int)
  {
    0 <= s < |t| && t[s].country == c && forall i :: 0 <= i < s ==> t[i].country != c
  }

  /** Row `e` is the last row of country `c`. */
  ghost predicate IsLastRow(t: Table, c: string, e: int)
  {
    0 <= e < |t| && t[e].country == c && forall i :: e < i < |t| ==> t[i].country != c
  }

  /** `g` lists, in increasing order, exactly the rows of country `c`. */
  ghost predicate IsGroup(t: Table, c: string, g: seq<nat>)
  {
    && (forall k :: 0 <= k < |g| ==> g[k] < |t| && t[g[k]].country == c)
    && (forall i {:trigger i in g} :: 0 <= i < |t| && t[i].country == c ==> i in g)
    && (forall j, k :: 0 <= j < k < |g| ==> g[j] < g[k])
  }

  /** `v` tells, for each row the group lists, whether its label is present. */
  ghost predicate IsMask(t: Table, g: seq<nat>, v: seq<bool>)
  {
    && |v| == |g|
    && forall k :: 0 <= k < |g| ==> g[k] < |t| && (v[k] <==> IsLabelled(t[g[k]]))
  }

  /** The forward search over a group's mask stops at the first labelled row. */
  lemma FirstLabelledInGroup(t: Table, c: string, g: seq<nat>, v: seq<bool>)
    requires |g| > 0 && IsGroup(t, c, g) && IsMask(t, g, v)
    requires HasLabelledRow(t, c)
    ensures IsFirstLabelled(t, c, g[ArgMax(v)])
  {
    var k := ArgMax(v);
    var w :| 0 <= w < |t| && t[w].country == c && IsLabelled(t[w]);
    assert w in g;
    var jw :| 0 <= jw < |g| && g[jw] == w;
    assert v[jw];
    forall i | 0 <= i < g[k] && t[i].country == c
      ensures !IsLabelled(t[i])
    {
      assert i in g;
      var j :| 0 <= j < |g| && g[j] == i;
      assert j < k;
    }
  }

  /** The search over the reversed mask stops at the last labelled row. */
  lemma LastLabelledInGroup(t: Table, c: string, g: seq<nat>, v: seq<bool>)
    requires |g| > 0 && IsGroup(t, c, g) && IsMask(t, g, v)
    requires HasLabelledRow(t, c)
    ensures IsLastLabelled(t, c, g[|g| - 1 - ArgMax(Reverse(v))])
  {
    ReversedArgMax(v);
    var k := |g| - 1 - ArgMax(Reverse(v));
    var w :| 0 <= w < |t| && t[w].country == c && IsLabelled(t[w]);
    assert w in g;
    var jw :| 0 <= jw < |g| && g[jw] == w;
    assert v[jw];
    forall i | g[k] < i < |t| && t[i].country == c
      ensures !IsLabelled(t[i])
    {
      assert i in g;
      var j :| 0 <= j < |g| && g[j] == i;
      assert j > k;
    }
  }

  /** With no labelled row both searches find nothing and fall back to the
      first position of the order they search: the group's first row going
      forward, its last row going backward. */
  lemma FallbackInGroup(t: Table, c: string, g: seq<nat>, v: seq<bool>)
    requires |g| > 0 && IsGroup(t, c, g) && IsMask(t, g, v)
    requires !HasLabelledRow(t, c)
    ensures IsFirstRow(t, c, g[ArgMax(v)])
    ensures IsLastRow(t, c, g[|g| - 1 - ArgMax(Reverse(v))])
  {
    ReversedArgMax(v);
    assert !v[ArgMax(v)];
    assert ArgMax(v) == 0;
    forall i | 0 <= i < g[0]
      ensures t[i].country != c
    {
      assert t[i].country == c ==> i in g;
    }
    var k := |g| - 1 - ArgMax(Reverse(v));
    assert !v[k];
    forall i | g[|g| - 1] < i < |t|
      ensures t[i].country != c
    {
      assert t[i].country == c ==> i in g;
    }
  }

  /** Rows `start` and `end` of country `c` are its first and last labelled
      rows, or its first and last row when none is labelled. */
  ghost predicate IsSpan(t: Table, c: string, start: nat, end: nat)
  {
    && start <= end < |t| && t[start].country == c && t[end].country == c
    && (HasLabelledRow(t, c) ==> IsFirstLabelled(t, c, start) && IsLastLabelled(t, c, end))
    && (!HasLabelledRow(t, c) ==> IsFirstRow(t, c, start) && IsLastRow(t, c, end))
  }

  /** Both searches over the mask of a group, and what they find. */
  lemma SpanInGroup(t: Table, c: string, g: seq<nat>, v: seq<bool>)
    requires |g| > 0 && IsGroup(t, c, g) && IsMask(t, g, v)
    ensures IsSpan(t, c, g[ArgMax(v)], g[|g| - 1 - ArgMax(Reverse(v))])
  {
    ReversedArgMax(v);
    if HasLabelledRow(t, c) {
      FirstLabelledInGroup(t, c, g, v);
      LastLabelledInGroup(t, c, g, v);
    } else {
      FallbackInGroup(t, c, g, v);
    }
  }

  /** `~df_country["next_months_revenue"].isna()` for the group `g`. */
  function NotNa(t: Table, g: seq<nat>): (s: Series)
    requires forall k :: 0 <= k < |g| ==> g[k] < |t|
    ensures |s.index| == |s.values| == |g|
    ensures s.index == g
    ensures forall k :: 0 <= k < |g| ==> (s.values[k] <==> IsLabelled(t[g[k]]))
  {
    Series(g, seq(|g|, k requires 0 <= k < |g| => IsLabelled(t[g[k]])))
  }

  /** The two searches `_train_test_split_idx_country` runs over the mask
      of country `c`: `idxmax` finds the first row whose label is present,
      and `idxmax` on the reversed mask the last one. Both fall back to the
      first label of the order they search, so a country with no labelled
      row silently gets its first and its last row. */
  function LabelledSpan(t: Table, c: string): (span: (nat, nat))
    requires HasCountry(t, c)
    ensures span.0 <= span.1 < |t|
    ensures t[span.0].country == c && t[span.1].country == c
    ensures HasLabelledRow(t, c) ==> IsFirstLabelled(t, c, span.0) && IsLastLabelled(t, c, span.1)
    ensures !HasLabelledRow(t, c) ==> IsFirstRow(t, c, span.0) && IsLastRow(t, c, span.1)
  {
    var notna := NotNa(t, Group(t, c));
    SearchesFind(t, c, notna);
    (IdxMax(notna), IdxMax(Reversed(notna)))
  }

  /** The labels both searches return on the mask Series of a group. */
  lemma SearchesFind(t: Table, c: string, s: Series)
    requires |s.index| > 0 && IsGroup(t, c, s.index) && IsMask(t, s.index, s.values)
    ensures IsSpan(t, c, IdxMax(s), IdxMax(Reversed(s)))
  {
    IdxMaxReversed(s);
    SpanInGroup(t, c, s.index, s.values);
  }
}
