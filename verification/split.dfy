/** The per-country train/test split: `_train_test_split_idx_country` finds a
    country's labelled span and its split point, and `train_test_split` cuts
    the table into a train and a test selection, one block per country. */
module Split {
  import opened Wrappers
  import opened Rounding
  import opened DataFrame
  import opened Search

  /** `train_size`, the float fraction, taken as the exact value `num / den`. */
  datatype TrainSize = TrainSize(num: int, den: int)

  /** The default `train_size=0.8`. */
  const DefaultTrainSize := TrainSize(4, 5)

  /** The fraction lies in `[0, 1]`, the range its callers use. */
  predicate InUnitRange(ts: TrainSize)
  {
    0 <= ts.num <= ts.den
  }

  /** The triple `(start, train_end, end)` of one country. */
  datatype Bounds = Bounds(start: nat, trainEnd: int, end: nat)

  /** `train_end - start = round(train_size * (end - start))`. */
  function SplitOffset(span: nat, ts: TrainSize): (r: int)
    requires ts.den > 0
    ensures InUnitRange(ts) ==> 0 <= r <= span
    ensures ts.num == 0 ==> r == 0
    ensures ts.num == ts.den ==> r == span
  {
    var r := RoundHalfEven(Times(ts.num, span), ts.den);
    assert InUnitRange(ts) ==> 0 <= r <= span by {
      if InUnitRange(ts) {
        ShareWithin(ts.num, ts.den, span);
      }
    }
    assert ts.num == 0 ==> r == 0 by {
      ShareOfNone(ts.den, span);
    }
    assert ts.num == ts.den ==> r == span by {
      ShareOfAll(ts.den, span);
    }
    r
  }

  /** `_train_test_split_idx_country`: the labelled span of country `c`
      and the split point `start + round(train_size * (end - start))`. With
      `train_size` in `[0, 1]` the split point lies in `[start, end]`, at
      `start` for 0 and at `end` for 1. */
  function SplitIdxCountry(t: Table, c: string, ts: TrainSize): (b: Bounds)
    requires ts.den > 0
    requires HasCountry(t, c)
    ensures b.start <= b.end < |t|
    ensures t[b.start].country == c && t[b.end].country == c
    ensures HasLabelledRow(t, c) ==> IsFirstLabelled(t, c, b.start) && IsLastLabelled(t, c, b.end)
    ensures !HasLabelledRow(t, c) ==> IsFirstRow(t, c, b.start) && IsLastRow(t, c, b.end)
    ensures b.trainEnd == b.start + SplitOffset(b.end - b.start, ts)
    ensures InUnitRange(ts) ==> b.start <= b.trainEnd <= b.end
    ensures ts.num == 0 ==> b.trainEnd == b.start
    ensures ts.num == ts.den ==> b.trainEnd == b.end
  {
    var span := LabelledSpan(t, c);
    var offset := SplitOffset(span.1 - span.0, ts);
    Bounds(span.0, span.0 + offset, span.1)
  }

  /** `df.loc[start:train_end]`, one country's part of the train output. */
  function TrainPart(t: Table, b: Bounds): seq<Entry>
  {
    Loc(t, b.start, b.trainEnd)
  }

  /** `df.loc[train_end:end]`, one country's part of the test output. */
  function TestPart(t: Table, b: Bounds): seq<Entry>
  {
    Loc(t, b.trainEnd, b.end)
  }

  /** `pd.concat` of a list of selections. */
  function Concat(bs: seq<seq<Entry>>): (r: seq<Entry>)
    ensures |bs| == 0 ==> r == []
  {
    if |bs| == 0 then [] else bs[0] + Concat(bs[1..])
  }

  /** The train parts of all countries, in the order `groupby` visits them. */
  function TrainBlocks(t: Table, ts: TrainSize): (bs: seq<seq<Entry>>)
    requires ts.den > 0
    ensures |bs| == |GroupKeys(t)|
    ensures forall k :: 0 <= k < |bs| ==> EntriesOf(t, bs[k]) && Increasing(bs[k])
  {
    var keys := GroupKeys(t);
    seq(|keys|, k requires 0 <= k < |keys| => TrainPart(t, SplitIdxCountry(t, keys[k], ts)))
  }

  /** The test parts of all countries, in the order `groupby` visits them. */
  function TestBlocks(t: Table, ts: TrainSize): (bs: seq<seq<Entry>>)
    requires ts.den > 0
    ensures |bs| == |GroupKeys(t)|
    ensures forall k :: 0 <= k < |bs| ==> EntriesOf(t, bs[k]) && Increasing(bs[k])
  {
    var keys := GroupKeys(t);
    seq(|keys|, k requires 0 <= k < |keys| => TestPart(t, SplitIdxCountry(t, keys[k], ts)))
  }

  datatype Partition = Partition(train: seq<Entry>, test: seq<Entry>)

  /** An empty table has no groups, and the call raises: in the unpacking of
      the per-country triples or in `pd.concat([])`, depending on the pandas
      version. */
  datatype SplitError = EmptyTable

  /** `train_test_split`: the train output concatenates every country's
      train part and the test output every country's test part. It fails
      exactly on an empty table, the one input that has no country. */
  function TrainTestSplit(t: Table, ts: TrainSize): (r: Result<Partition, SplitError>)
    requires ts.den > 0
    ensures r.Failure? <==> |t| == 0
  {
    var trainBlocks := TrainBlocks(t, ts);
    assert |trainBlocks| == 0 <==> |t| == 0 by {
      if |t| > 0 {
        assert HasCountry(t, t[0].country);
        assert t[0].country in GroupKeys(t);
      }
    }
    if |trainBlocks| == 0 then Failure(EmptyTable)
    else Success(Partition(Concat(trainBlocks), Concat(TestBlocks(t, ts))))
  }
}
