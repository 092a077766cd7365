/** What the two outputs of `train_test_split` hold, for a table whose
    countries each occupy one block of rows and a `train_size` in `[0, 1]`:
    which rows each output keeps, that both come out ordered by country and
    then by label, that they share exactly each country's split row, and
    that only unlabelled rows at a country's edges are dropped. */
module OutputProperties {
  import opened DataFrame
  import opened Search
  import opened Split
  import opened ConcatFacts
  import opened SplitProperties

  /** The bounds of the country row `i` belongs to. */
  function BoundsAt(t: Table, ts: TrainSize, i: nat): Bounds
    requires ts.den > 0 && i < |t|
  {
    assert HasCountry(t, t[i].country);
    SplitIdxCountry(t, t[i].country, ts)
  }

  /** A country's train part (`train`) or test part (`!train`). */
  function Part(t: Table, b: Bounds, train: bool): seq<Entry>
  {
    if train then TrainPart(t, b) else TestPart(t, b)
  }

  /** With contiguous countries, a country's parts hold no row of another
      country. */
  lemma OtherCountryAbsent(t: Table, ts: TrainSize, c: string, i: nat, train: bool)
    requires ts.den > 0 && InUnitRange(ts) && Contiguous(t) && HasCountry(t, c)
    requires i < |t| && t[i].country != c
    ensures i !in Labels(Part(t, SplitIdxCountry(t, c, ts), train))
  {
    PartsStayInCountry(t, c, ts);
    var p := Part(t, SplitIdxCountry(t, c, ts), train);
    forall j | 0 <= j < |p|
      ensures p[j].index != i
    {
      assert p[j].row.country == c;
    }
  }

  /** Concatenating one part per country, in key order, holds row `i`
      exactly when the part of row `i`'s own country does. */
  lemma BlocksLabels(t: Table, ts: TrainSize, bs: seq<seq<Entry>>, train: bool)
    requires ts.den > 0 && InUnitRange(ts) && Contiguous(t)
    requires |bs| == |GroupKeys(t)|
    requires forall k :: 0 <= k < |bs| ==> bs[k] == Part(t, SplitIdxCountry(t, GroupKeys(t)[k], ts), train)
    ensures forall i: int :: i in Labels(Concat(bs)) <==> 0 <= i < |t| && i in Labels(Part(t, BoundsAt(t, ts, i), train))
  {
    var keys := GroupKeys(t);
    ConcatLabels(bs);
    forall i: int
      ensures i in Labels(Concat(bs)) <==> 0 <= i < |t| && i in Labels(Part(t, BoundsAt(t, ts, i), train))
    {
      if 0 <= i < |t| {
        var c := t[i].country;
        assert HasCountry(t, c);
        var k0 :| 0 <= k0 < |keys| && keys[k0] == c;
        assert bs[k0] == Part(t, BoundsAt(t, ts, i), train);
        forall k | 0 <= k < |bs| && keys[k] != c
          ensures i !in Labels(bs[k])
        {
          OtherCountryAbsent(t, ts, keys[k], i, train);
        }
      } else {
        forall k | 0 <= k < |bs|
          ensures i !in Labels(bs[k])
        {
          var b := SplitIdxCountry(t, keys[k], ts);
          assert bs[k] == Loc(t, if train then b.start else b.trainEnd, if train then b.trainEnd else b.end);
        }
      }
    }
  }

  /** The train output holds row `i` exactly when `i` lies in
      `[start, train_end]` of its own country. */
  lemma TrainRows(t: Table, ts: TrainSize)
    requires ts.den > 0 && InUnitRange(ts) && Contiguous(t)
    ensures var r := TrainTestSplit(t, ts);
      r.Success? ==> forall i: int :: i in Labels(r.value.train) <==>
        0 <= i < |t| && BoundsAt(t, ts, i).start <= i <= BoundsAt(t, ts, i).trainEnd
  {
    var bs := TrainBlocks(t, ts);
    BlocksLabels(t, ts, bs, true);
    forall i: int | 0 <= i < |t|
      ensures i in Labels(Concat(bs)) <==> BoundsAt(t, ts, i).start <= i <= BoundsAt(t, ts, i).trainEnd
    {
      var b := BoundsAt(t, ts, i);
      assert i in Labels(Concat(bs)) <==> i in Labels(TrainPart(t, b));
    }
  }

  /** The test output holds row `i` exactly when `i` lies in
      `[train_end, end]` of its own country. */
  lemma TestRows(t: Table, ts: TrainSize)
    requires ts.den > 0 && InUnitRange(ts) && Contiguous(t)
    ensures var r := TrainTestSplit(t, ts);
      r.Success? ==> forall i: int :: i in Labels(r.value.test) <==>
        0 <= i < |t| && BoundsAt(t, ts, i).trainEnd <= i <= BoundsAt(t, ts, i).end
  {
    var bs := TestBlocks(t, ts);
    BlocksLabels(t, ts, bs, false);
    forall i: int | 0 <= i < |t|
      ensures i in Labels(Concat(bs)) <==> BoundsAt(t, ts, i).trainEnd <= i <= BoundsAt(t, ts, i).end
    {
      var b := BoundsAt(t, ts, i);
      assert i in Labels(Concat(bs)) <==> i in Labels(TestPart(t, b));
    }
  }

  /** Each output is a selection of the table's own rows, ordered by
      country in Python's string order and, within a country, by label, so
      no row appears twice in one output. */
  lemma OutputsGrouped(t: Table, ts: TrainSize)
    requires ts.den > 0 && InUnitRange(ts) && Contiguous(t)
    ensures var r := TrainTestSplit(t, ts);
      r.Success? ==>
        && EntriesOf(t, r.value.train) && GroupedInKeyOrder(r.value.train)
        && EntriesOf(t, r.value.test) && GroupedInKeyOrder(r.value.test)
  {
    var keys := GroupKeys(t);
    forall k | 0 <= k < |keys|
      ensures var b := SplitIdxCountry(t, keys[k], ts);
        && (forall j :: 0 <= j < |TrainPart(t, b)| ==> TrainPart(t, b)[j].row.country == keys[k])
        && (forall j :: 0 <= j < |TestPart(t, b)| ==> TestPart(t, b)[j].row.country == keys[k])
    {
      PartsStayInCountry(t, keys[k], ts);
    }
    var train := TrainBlocks(t, ts);
    assert PartsOfKeys(train, keys);
    ConcatGrouped(train, keys);
    ConcatEntriesOf(t, train);
    var test := TestBlocks(t, ts);
    assert PartsOfKeys(test, keys);
    ConcatGrouped(test, keys);
    ConcatEntriesOf(t, test);
  }

  /** The two outputs share exactly one row per country: its split row
      `train_end`. */
  lemma SplitRowsShared(t: Table, ts: TrainSize)
    requires ts.den > 0 && InUnitRange(ts) && Contiguous(t)
    ensures var r := TrainTestSplit(t, ts);
      r.Success? ==> forall i: int :: i in Labels(r.value.train) && i in Labels(r.value.test) <==>
        0 <= i < |t| && i == BoundsAt(t, ts, i).trainEnd
  {
    TrainRows(t, ts);
    TestRows(t, ts);
  }

  /** Row `i` lies in the span `[start, end]` of its own country exactly
      when it is not an unlabelled row before the first or after the last
      labelled row of that country. */
  lemma SpanOfRow(t: Table, ts: TrainSize, i: nat)
    requires ts.den > 0 && Contiguous(t) && i < |t|
    ensures var b := BoundsAt(t, ts, i); var c := t[i].country;
      b.start <= i <= b.end <==>
        (HasLabelledRow(t, c) ==> LabelledAtOrBefore(t, c, i) && LabelledAtOrAfter(t, c, i))
  {
    var b := BoundsAt(t, ts, i);
    var c := t[i].country;
    if HasLabelledRow(t, c) {
      LabelledSpanRows(t, c, b.start, b.end);
    } else {
      assert IsFirstRow(t, c, b.start) && IsLastRow(t, c, b.end);
    }
  }

  /** Between them the outputs keep every row except the unlabelled rows
      before a country's first or after its last labelled row; a country
      with no labelled row is kept whole. */
  lemma RowsKept(t: Table, ts: TrainSize)
    requires ts.den > 0 && InUnitRange(ts) && Contiguous(t)
    ensures var r := TrainTestSplit(t, ts);
      r.Success? ==> forall i: int :: i in Labels(r.value.train) || i in Labels(r.value.test) <==>
        && 0 <= i < |t|
        && (HasLabelledRow(t, t[i].country) ==>
              LabelledAtOrBefore(t, t[i].country, i) && LabelledAtOrAfter(t, t[i].country, i))
  {
    TrainRows(t, ts);
    TestRows(t, ts);
    forall i: int | 0 <= i < |t|
      ensures var b := BoundsAt(t, ts, i); var c := t[i].country;
        b.start <= i <= b.end <==>
          (HasLabelledRow(t, c) ==> LabelledAtOrBefore(t, c, i) && LabelledAtOrAfter(t, c, i))
    {
      SpanOfRow(t, ts, i);
    }
  }
}
