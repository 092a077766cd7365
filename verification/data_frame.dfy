/** The table that the split receives: the concatenation of every country's
    processed time series with a fresh contiguous row index `0 .. N-1`, the
    shape that `ingest` produces. Only the two columns the split reads are
    modelled: `country` and the target `next_months_revenue`. */
module DataFrame {
  import opened Wrappers
  import opened KeyOrder

  /** Revenue for the coming months; its value never matters to the split. */
  type Revenue = real

  /** One row: the country it belongs to and its target label, `None` when
      the label is NaN. */
  datatype Row = Row(country: string, nextMonthsRevenue: Option<Revenue>)

  /** A table whose row labels are the positions `0 .. |t|-1`. */
  type Table = seq<Row>

  /** A selected row keeps the label it had in the table it came from. */
  datatype Entry = Entry(index: nat, row: Row)

  /** `~df["next_months_revenue"].isna()` for one row. */
  predicate IsLabelled(r: Row)
  {
    r.nextMonthsRevenue.Some?
  }

  /** Some row of `t` belongs to country `c`. */
  ghost predicate HasCountry(t: Table, c: string)
  {
    exists i :: 0 <= i < |t| && t[i].country == c
  }

  /** Every entry carries the row that `t` holds under its label. */
  ghost predicate EntriesOf(t: Table, es: seq<Entry>)
  {
    forall k :: 0 <= k < |es| ==> es[k].index < |t| && es[k].row == t[es[k].index]
  }

  /** Labels strictly increase along the selection. */
  ghost predicate Increasing(es: seq<Entry>)
  {
    forall j, k :: 0 <= j < k < |es| ==> es[j].index < es[k].index
  }

  /** The labels of the rows a selection holds. */
  ghost function Labels(es: seq<Entry>): set<nat>
  {
    set k | 0 <= k < |es| :: es[k].index
  }

  /** Each country's rows form one block of consecutive labels. */
  ghost predicate Contiguous(t: Table)
  {
    forall i, j, k :: 0 <= i < j < k < |t| && t[i].country == t[k].country ==> t[j].country == t[i].country
  }

  /** `df.loc[a:b]`: label slicing is inclusive at both ends, and on a
      monotonic integer index it selects exactly the labels in `[a, b]` that
      exist, in index order; it is empty when `a > b`. */
  function Loc(t: Table, a: int, b: int): (r: seq<Entry>)
    ensures EntriesOf(t, r)
    ensures Increasing(r)
    ensures forall i :: i in Labels(r) <==> 0 <= i < |t| && a <= i <= b
  {
    var lo := if a < 0 then 0 else if a > |t| then |t| else a;
    var hi := if b + 1 < lo then lo else if b + 1 > |t| then |t| else b + 1;
    var r := seq(hi - lo, k requires 0 <= k < hi - lo => Entry(lo + k, t[lo + k]));
    assert forall i | 0 <= i < |t| && a <= i <= b :: i in Labels(r) by {
      forall i | 0 <= i < |t| && a <= i <= b
        ensures i in Labels(r)
      {
        assert r[i - lo].index == i;
      }
    }
    r
  }

  /** Positions `>= from` of the rows of country `c`, in increasing order. */
  function GroupFrom(t: Table, c: string, from: nat): (g: seq<nat>)
    requires from <= |t|
    ensures forall k :: 0 <= k < |g| ==> from <= g[k] < |t| && t[g[k]].country == c
    ensures forall i {:trigger i in g} :: from <= i < |t| && t[i].country == c ==> i in g
    ensures forall j, k :: 0 <= j < k < |g| ==> g[j] < g[k]
    decreases |t| - from
  {
    if from == |t| then []
    else if t[from].country == c then [from] + GroupFrom(t, c, from + 1)
    else GroupFrom(t, c, from + 1)
  }

  /** The row labels of the group `df.groupby("country")` forms for `c`:
      every row of `c`, wherever it lies, in index order. */
  function Group(t: Table, c: string): (g: seq<nat>)
    ensures forall k :: 0 <= k < |g| ==> g[k] < |t| && t[g[k]].country == c
    ensures forall i {:trigger i in g} :: 0 <= i < |t| && t[i].country == c ==> i in g
    ensures forall j, k :: 0 <= j < k < |g| ==> g[j] < g[k]
    ensures |g| > 0 <==> HasCountry(t, c)
  {
    var g := GroupFrom(t, c, 0);
    assert HasCountry(t, c) ==> |g| > 0 by {
      if HasCountry(t, c) {
        var i :| 0 <= i < |t| && t[i].country == c;
        assert i in g;
      }
    }
    assert |g| > 0 ==> t[g[0]].country == c;
    g
  }

  /** The keys `groupby("country")` visits: each country of `t` once, sorted
      as Python sorts strings. */
  function GroupKeys(t: Table): (ks: seq<string>)
    ensures StrictlySorted(ks)
    ensures forall c :: c in ks <==> HasCountry(t, c)
  {
    if |t| == 0 then []
    else
      var ks := Insert(t[0].country, GroupKeys(t[1..]));
      assert forall c :: HasCountry(t, c) <==> c == t[0].country || HasCountry(t[1..], c) by {
        forall c | HasCountry(t, c) && c != t[0].country
          ensures HasCountry(t[1..], c)
        {
          var i :| 0 <= i < |t| && t[i].country == c;
          assert t[1..][i - 1].country == c;
        }
      }
      ks
  }
}
