/** What the split promises. Per country, for any table: the train and the
    test part meet in the split row alone and together cover the labelled
    span, and the span is the only one with the first/last-labelled
    property. For a table whose countries each occupy one block of rows, as
    `ingest` writes it: which rows each output holds, in what order, and
    that unlabelled rows at a country's edges are dropped. */
module SplitProperties {
  import opened Wrappers
  import opened Rounding
  import opened DataFrame
  import opened Search
  import opened Split

  /** The train part `[start, train_end]` and the test part `[train_end,
      end]` of a country share the row `train_end` and no other. */
  lemma BoundaryRowShared(t: Table, c: string, ts: TrainSize)
    requires ts.den > 0 && HasCountry(t, c) && InUnitRange(ts)
    ensures var b := SplitIdxCountry(t, c, ts);
      forall i :: i in Labels(TrainPart(t, b)) && i in Labels(TestPart(t, b)) <==> i == b.trainEnd
  {
  }

  /** Together the two parts of a country are its span `[start, end]`. */
  lemma PartsCoverSpan(t: Table, c: string, ts: TrainSize)
    requires ts.den > 0 && HasCountry(t, c) && InUnitRange(ts)
    ensures var b := SplitIdxCountry(t, c, ts);
      forall i :: i in Labels(TrainPart(t, b)) || i in Labels(TestPart(t, b)) <==> 0 <= i < |t| && b.start <= i <= b.end
  {
  }

  /** The first and last labelled rows are unique, so whenever `s` is the
      first and `e` the last labelled row of `c`, they are the `start` and
      `end` the split uses. */
  lemma SpanIsUnique(t: Table, c: string, ts: TrainSize, s: int, e: int)
    requires ts.den > 0
    requires IsFirstLabelled(t, c, s) && IsLastLabelled(t, c, e)
    ensures HasCountry(t, c)
    ensures SplitIdxCountry(t, c, ts).start == s && SplitIdxCountry(t, c, ts).end == e
  {
    assert HasLabelledRow(t, c) by {
      assert t[s].country == c && IsLabelled(t[s]);
    }
    var b := SplitIdxCountry(t, c, ts);
    assert !(s < b.start) && !(b.start < s);
    assert !(e < b.end) && !(b.end < e);
  }

  /** Some row of `c` at or before row `i` is labelled. */
  ghost predicate LabelledAtOrBefore(t: Table, c: string, i: int)
  {
    exists j :: 0 <= j <= i && j < |t| && t[j].country == c && IsLabelled(t[j])
  }

  /** Some row of `c` at or after row `i` is labelled. */
  ghost predicate LabelledAtOrAfter(t: Table, c: string, i: int)
  {
    exists j :: 0 <= i <= j < |t| && t[j].country == c && IsLabelled(t[j])
  }

  /** In a table with contiguous countries, every row between two rows of
      `c` is a row of `c`. */
  lemma BlockOfCountry(t: Table, c: string, s: nat, e: nat)
    requires Contiguous(t) && s <= e < |t| && t[s].country == c && t[e].country == c
    ensures forall i :: s <= i <= e ==> t[i].country == c
  {
    forall i | s < i < e
      ensures t[i].country == c
    {
      assert t[s].country == t[e].country;
    }
  }

  /** A label range whose rows are all of `c` selects rows of `c` only. */
  lemma LocWithinCountry(t: Table, c: string, a: int, b: int)
    requires forall i :: 0 <= i < |t| && a <= i <= b ==> t[i].country == c
    ensures forall j :: 0 <= j < |Loc(t, a, b)| ==> Loc(t, a, b)[j].row.country == c
  {
    var r := Loc(t, a, b);
    forall j | 0 <= j < |r|
      ensures r[j].row.country == c
    {
      assert r[j].index in Labels(r);
    }
  }

  /** With contiguous countries and `train_size` in `[0, 1]`, both parts of a
      country hold rows of that country only. */
  lemma PartsStayInCountry(t: Table, c: string, ts: TrainSize)
    requires ts.den > 0 && HasCountry(t, c) && InUnitRange(ts) && Contiguous(t)
    ensures var b := SplitIdxCountry(t, c, ts);
      && (forall j :: 0 <= j < |TrainPart(t, b)| ==> TrainPart(t, b)[j].row.country == c)
      && (forall j :: 0 <= j < |TestPart(t, b)| ==> TestPart(t, b)[j].row.country == c)
  {
    var b := SplitIdxCountry(t, c, ts);
    BlockOfCountry(t, c, b.start, b.end);
    LocWithinCountry(t, c, b.start, b.trainEnd);
    LocWithinCountry(t, c, b.trainEnd, b.end);
  }

  /** Row `i` is a row of `c` that lies between two labelled rows of `c`
      (either may be row `i` itself). */
  ghost predicate BetweenLabelled(t: Table, c: string, i: int)
  {
    0 <= i < |t| && t[i].country == c && LabelledAtOrBefore(t, c, i) && LabelledAtOrAfter(t, c, i)
  }

  /** With contiguous countries, the rows from the first to the last
      labelled row of `c` are exactly the rows of `c` that have a labelled
      row of `c` at or before them and one at or after them. */
  lemma LabelledSpanRows(t: Table, c: string, s: int, e: int)
    requires Contiguous(t) && IsFirstLabelled(t, c, s) && IsLastLabelled(t, c, e)
    ensures forall i :: 0 <= i < |t| && s <= i <= e <==> BetweenLabelled(t, c, i)
  {
    BlockOfCountry(t, c, s, e);
    forall i | 0 <= i < |t| && s <= i <= e
      ensures LabelledAtOrBefore(t, c, i) && LabelledAtOrAfter(t, c, i)
    {
      assert t[s].country == c && IsLabelled(t[s]);
      assert t[e].country == c && IsLabelled(t[e]);
    }
    forall i | 0 <= i < |t| && t[i].country == c && LabelledAtOrBefore(t, c, i) && LabelledAtOrAfter(t, c, i)
      ensures s <= i <= e
    {
      var j1 :| 0 <= j1 <= i && j1 < |t| && t[j1].country == c && IsLabelled(t[j1]);
      var j2 :| 0 <= i <= j2 < |t| && t[j2].country == c && IsLabelled(t[j2]);
      assert s <= j1;
      assert j2 <= e;
    }
  }

  /** With contiguous countries and `train_size` in `[0, 1]`, the rows the two
      parts of a country hold together are exactly its rows that have a
      labelled row of the country at or before them and one at or after
      them: unlabelled rows at either edge of the country are in neither. */
  lemma PartsAreLabelledSpan(t: Table, c: string, ts: TrainSize)
    requires ts.den > 0 && HasCountry(t, c) && InUnitRange(ts) && Contiguous(t)
    requires HasLabelledRow(t, c)
    ensures var b := SplitIdxCountry(t, c, ts);
      forall i :: i in Labels(TrainPart(t, b)) || i in Labels(TestPart(t, b)) <==> BetweenLabelled(t, c, i)
  {
    var b := SplitIdxCountry(t, c, ts);
    BoundsPartsAreLabelledSpan(t, c, b);
  }

  /** `PartsAreLabelledSpan` for any bounds running from the first to the
      last labelled row of `c`, with the split row between them. */
  lemma BoundsPartsAreLabelledSpan(t: Table, c: string, b: Bounds)
    requires Contiguous(t) && IsFirstLabelled(t, c, b.start) && IsLastLabelled(t, c, b.end)
    requires b.start <= b.trainEnd <= b.end
    ensures forall i :: i in Labels(TrainPart(t, b)) || i in Labels(TestPart(t, b)) <==> BetweenLabelled(t, c, i)
  {
    PartLabels(t, b);
    LabelledSpanRows(t, c, b.start, b.end);
    forall i
      ensures i in Labels(TrainPart(t, b)) || i in Labels(TestPart(t, b)) <==> BetweenLabelled(t, c, i)
    {
      assert i in Labels(TrainPart(t, b)) || i in Labels(TestPart(t, b)) <==> 0 <= i < |t| && b.start <= i <= b.end;
    }
  }

  /** With `train_size = 0` a country's train part is its single row
      `start`; with `train_size = 1` its test part is its single row `end`. */
  lemma EdgeSizesGiveSingleRow(t: Table, c: string, ts: TrainSize)
    requires ts.den > 0 && HasCountry(t, c)
    ensures var b := SplitIdxCountry(t, c, ts);
      && (ts.num == 0 ==> Labels(TrainPart(t, b)) == {b.start})
      && (ts.num == ts.den ==> Labels(TestPart(t, b)) == {b.end})
  {
    var b := SplitIdxCountry(t, c, ts);
    if ts.num == 0 {
      assert forall i :: i in Labels(TrainPart(t, b)) <==> i == b.start;
    }
    if ts.num == ts.den {
      assert forall i :: i in Labels(TestPart(t, b)) <==> i == b.end;
    }
  }

  /** Ten rows of one country, labelled on rows 2 to 8. */
  function ScenarioTable(): Table
  {
    seq(10, i requires 0 <= i < 10 => Row("A", if 2 <= i <= 8 then Some(1.0) else None))
  }

  /** With `train_size = 0.5` the country's span is rows 2 to 8, its split
      row is `2 + round(0.5 * 6) = 5`, the train part is rows 2 to 5 and the
      test part rows 5 to 8. */
  lemma ScenarioSplit(t: Table)
    requires t == ScenarioTable()
    ensures HasCountry(t, "A")
    ensures SplitIdxCountry(t, "A", TrainSize(1, 2)) == Bounds(2, 5, 8)
    ensures forall i :: i in Labels(TrainPart(t, Bounds(2, 5, 8))) <==> 2 <= i <= 5
    ensures forall i :: i in Labels(TestPart(t, Bounds(2, 5, 8))) <==> 5 <= i <= 8
  {
    ScenarioSpan(t);
    ScenarioOffset();
    PartLabels(t, Bounds(2, 5, 8));
  }

  /** The labels of a country's two parts, read off `Loc`. */
  lemma PartLabels(t: Table, b: Bounds)
    ensures forall i :: i in Labels(TrainPart(t, b)) <==> 0 <= i < |t| && b.start <= i <= b.trainEnd
    ensures forall i :: i in Labels(TestPart(t, b)) <==> 0 <= i < |t| && b.trainEnd <= i <= b.end
  {
  }

  /** The scenario's labelled span is rows 2 to 8. */
  lemma ScenarioSpan(t: Table)
    requires t == ScenarioTable()
    ensures |t| == 10 && HasCountry(t, "A")
    ensures SplitIdxCountry(t, "A", TrainSize(1, 2)).start == 2
    ensures SplitIdxCountry(t, "A", TrainSize(1, 2)).end == 8
  {
    assert t[0].country == "A";
    assert IsFirstLabelled(t, "A", 2) by {
      assert !IsLabelled(t[0]) && !IsLabelled(t[1]) && IsLabelled(t[2]);
    }
    assert IsLastLabelled(t, "A", 8) by {
      assert !IsLabelled(t[9]) && IsLabelled(t[8]);
    }
    SpanIsUnique(t, "A", TrainSize(1, 2), 2, 8);
  }

  /** `round(0.5 * 6) = 3`. */
  lemma ScenarioOffset()
    ensures SplitOffset(6, TrainSize(1, 2)) == 3
  {
    TimesIsProduct(1, 6);
    RoundExact(3, 2);
  }

  /** With the default `train_size = 0.8` the scenario's split row is
      `2 + round(0.8 * 6) = 2 + round(4.8) = 7`: train rows 2 to 7, test rows
      7 to 8. */
  lemma DefaultScenarioSplit(t: Table)
    requires t == ScenarioTable()
    ensures HasCountry(t, "A")
    ensures SplitIdxCountry(t, "A", DefaultTrainSize) == Bounds(2, 7, 8)
    ensures forall i :: i in Labels(TrainPart(t, Bounds(2, 7, 8))) <==> 2 <= i <= 7
    ensures forall i :: i in Labels(TestPart(t, Bounds(2, 7, 8))) <==> 7 <= i <= 8
  {
    ScenarioSpan(t);
    SpanIsUnique(t, "A", DefaultTrainSize, 2, 8);
    DefaultOffset();
    PartLabels(t, Bounds(2, 7, 8));
  }

  /** `round(0.8 * 6) = round(4.8) = 5`. */
  lemma DefaultOffset()
    ensures SplitOffset(6, DefaultTrainSize) == 5
  {
    TimesIsProduct(4, 6);
    RoundHalfEvenUnique(24, 5, 5);
  }
}
