/** The order in which `groupby` visits its keys. By default pandas sorts the
    group keys; for string keys that is Python's `<` on `str`, which compares
    code points from the left and puts a proper prefix first. */
module KeyOrder {

  /** Python's `a < b` on strings. */
  predicate Less(a: string, b: string)
    decreases |a|
  {
    if |a| == 0 then |b| > 0
    else if |b| == 0 then false
    else if a[0] != b[0] then a[0] < b[0]
    else Less(a[1..], b[1..])
  }

  /** No string is less than itself. */
  lemma {:induction false} LessIrreflexive(a: string)
    ensures !Less(a, a)
    decreases |a|
  {
    if |a| > 0 {
      LessIrreflexive(a[1..]);
    }
  }

  lemma {:induction false} LessTransitive(a: string, b: string, c: string)
    requires Less(a, b) && Less(b, c)
    ensures Less(a, c)
    decreases |a|
  {
    if |a| > 0 && a[0] == b[0] && b[0] == c[0] {
      LessTransitive(a[1..], b[1..], c[1..]);
    }
  }

  /** Any two different strings are ordered one way or the other. */
  lemma {:induction false} LessTotal(a: string, b: string)
    requires a != b
    ensures Less(a, b) || Less(b, a)
    decreases |a|
  {
    if |a| > 0 && |b| > 0 && a[0] == b[0] {
      assert a == [a[0]] + a[1..] && b == [b[0]] + b[1..];
      LessTotal(a[1..], b[1..]);
    }
  }

  /** Keys listed in increasing order, hence without repetition. */
  ghost predicate StrictlySorted(ks: seq<string>)
  {
    forall i, j :: 0 <= i < j < |ks| ==> Less(ks[i], ks[j])
  }

  /** A strictly sorted key list repeats no key: `groupby` visits each
      country once. */
  lemma {:induction false} StrictlySortedDistinct(ks: seq<string>)
    requires StrictlySorted(ks)
    ensures forall i, j :: 0 <= i < j < |ks| ==> ks[i] != ks[j]
  {
    forall i, j | 0 <= i < j < |ks|
      ensures ks[i] != ks[j]
    {
      LessIrreflexive(ks[i]);
    }
  }

  /** Adds key `c` to a sorted list of distinct keys, keeping it sorted. */
  function Insert(c: string, ks: seq<string>): (r: seq<string>)
    requires StrictlySorted(ks)
    ensures StrictlySorted(r)
    ensures forall x :: x in r <==> x == c || x in ks
  {
    if |ks| == 0 then [c]
    else if c == ks[0] then ks
    else if Less(c, ks[0]) then
      assert forall j :: 0 < j < |ks| ==> Less(c, ks[j]) by {
        forall j | 0 < j < |ks| {
          LessTransitive(c, ks[0], ks[j]);
        }
      }
      [c] + ks
    else
      LessTotal(c, ks[0]);
      var rest := Insert(c, ks[1..]);
      assert forall x :: x in rest ==> Less(ks[0], x);
      [ks[0]] + rest
  }
}
