/** What `pd.concat` of several selections keeps: every row of every part,
    the rows' table labels, and the parts' order. */
module ConcatFacts {
  import opened KeyOrder
  import opened DataFrame
  import opened Split

  lemma LabelsAppend(a: seq<Entry>, b: seq<Entry>)
    ensures Labels(a + b) == Labels(a) + Labels(b)
  {
    var ab := a + b;
    forall i | i in Labels(ab)
      ensures i in Labels(a) + Labels(b)
    {
      var k :| 0 <= k < |ab| && ab[k].index == i;
      if k < |a| {
        assert a[k].index == i;
      } else {
        assert b[k - |a|].index == i;
      }
    }
    forall i | i in Labels(a) + Labels(b)
      ensures i in Labels(ab)
    {
      if i in Labels(a) {
        var k :| 0 <= k < |a| && a[k].index == i;
        assert ab[k].index == i;
      } else {
        var k :| 0 <= k < |b| && b[k].index == i;
        assert ab[|a| + k].index == i;
      }
    }
  }

  /** A label is in the concatenation exactly when it is in one of the parts. */
  lemma {:induction false} ConcatLabels(bs: seq<seq<Entry>>)
    ensures forall i :: i in Labels(Concat(bs)) <==> exists k :: 0 <= k < |bs| && i in Labels(bs[k])
    decreases |bs|
  {
    if |bs| > 0 {
      ConcatLabels(bs[1..]);
      LabelsAppend(bs[0], Concat(bs[1..]));
      forall i | (exists k :: 0 <= k < |bs| && i in Labels(bs[k]))
        ensures i in Labels(Concat(bs))
      {
        var k :| 0 <= k < |bs| && i in Labels(bs[k]);
        if k > 0 {
          assert i in Labels(bs[1..][k - 1]);
        }
      }
      forall i | i in Labels(Concat(bs[1..]))
        ensures exists k :: 0 <= k < |bs| && i in Labels(bs[k])
      {
        var k :| 0 <= k < |bs| - 1 && i in Labels(bs[1..][k]);
        assert i in Labels(bs[k + 1]);
      }
    }
  }

  /** An entry is in the concatenation exactly when it is in one of the parts. */
  lemma {:induction false} ConcatMember(bs: seq<seq<Entry>>, e: Entry)
    ensures e in Concat(bs) <==> exists k :: 0 <= k < |bs| && e in bs[k]
    decreases |bs|
  {
    if |bs| > 0 {
      ConcatMember(bs[1..], e);
      if e in Concat(bs[1..]) {
        var k :| 0 <= k < |bs| - 1 && e in bs[1..][k];
        assert e in bs[k + 1];
      }
      if exists k :: 0 < k < |bs| && e in bs[k] {
        var k :| 0 < k < |bs| && e in bs[k];
        assert e in bs[1..][k - 1];
      }
    }
  }

  /** Concatenating copies of table rows gives copies of table rows. */
  lemma {:induction false} ConcatEntriesOf(t: Table, bs: seq<seq<Entry>>)
    requires forall k :: 0 <= k < |bs| ==> EntriesOf(t, bs[k])
    ensures EntriesOf(t, Concat(bs))
    decreases |bs|
  {
    if |bs| > 0 {
      ConcatEntriesOf(t, bs[1..]);
      var r := Concat(bs);
      forall k | 0 <= k < |r|
        ensures r[k].index < |t| && r[k].row == t[r[k].index]
      {
        if k >= |bs[0]| {
          assert r[k] == Concat(bs[1..])[k - |bs[0]|];
        }
      }
    }
  }

  /** Entries ordered first by country, in Python's string order, then by
      table label. */
  ghost predicate GroupedInKeyOrder(es: seq<Entry>)
  {
    forall j, k :: 0 <= j < k < |es| ==>
      || Less(es[j].row.country, es[k].row.country)
      || (es[j].row.country == es[k].row.country && es[j].index < es[k].index)
  }

  /** Part `k` holds rows of the country `keys[k]` only. */
  ghost predicate PartsOfKeys(bs: seq<seq<Entry>>, keys: seq<string>)
  {
    && |bs| == |keys|
    && forall k, j :: 0 <= k < |bs| && 0 <= j < |bs[k]| ==> bs[k][j].row.country == keys[k]
  }

  /** Concatenating one increasing part per key, keys in increasing order,
      orders the result by key and then by label. */
  lemma {:induction false} ConcatGrouped(bs: seq<seq<Entry>>, keys: seq<string>)
    requires PartsOfKeys(bs, keys) && StrictlySorted(keys)
    requires forall k :: 0 <= k < |bs| ==> Increasing(bs[k])
    ensures GroupedInKeyOrder(Concat(bs))
    decreases |bs|
  {
    if |bs| > 0 {
      var rest := Concat(bs[1..]);
      ConcatGrouped(bs[1..], keys[1..]);
      forall y | y in rest
        ensures Less(keys[0], y.row.country)
      {
        ConcatMember(bs[1..], y);
        var m :| 0 <= m < |bs| - 1 && y in bs[1..][m];
        var j :| 0 <= j < |bs[m + 1]| && bs[m + 1][j] == y;
        assert y.row.country == keys[m + 1];
      }
      var r := Concat(bs);
      forall j, k | 0 <= j < k < |r|
        ensures || Less(r[j].row.country, r[k].row.country)
                || (r[j].row.country == r[k].row.country && r[j].index < r[k].index)
      {
        if k < |bs[0]| {
        } else if j < |bs[0]| {
          assert r[k] == rest[k - |bs[0]|];
          assert r[k] in rest;
        } else {
          assert r[j] == rest[j - |bs[0]|] && r[k] == rest[k - |bs[0]|];
        }
      }
    }
  }
}
