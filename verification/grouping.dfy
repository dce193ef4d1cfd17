/**
  Grouping products by category, as the loop over the sheet does with a
  `defaultdict(list)`: a dictionary of lists whose keys keep the order in which
  they were first inserted. The dictionary is modelled as a sequence of
  (key, bucket) pairs with distinct keys.
 */
module Grouping {
  import opened Cells
  import opened Products

  type Groups = seq<(Cell, seq<Product>)>

  predicate Distinct<T(==)>(xs: seq<T>) {
    forall i, j :: 0 <= i < j < |xs| ==> xs[i] != xs[j]
  }

  /** The keys of an ordered dictionary of buckets, in dictionary order. */
  function Keys<K>(g: seq<(K, seq<Product>)>): (ks: seq<K>)
    ensures |ks| == |g|
    ensures forall i :: 0 <= i < |g| ==> ks[i] == g[i].0
  {
    if g == [] then [] else [g[0].0] + Keys(g[1..])
  }

  /**
    Reading `grouped[k]` of a `defaultdict(list)`: the bucket, or `[]` when
    absent. A real `defaultdict` would also insert the empty bucket on such a
    read; the program only reads keys it has just found with `in`, so that
    side effect never happens and is not modelled.
   */
  function Lookup(g: Groups, k: Cell): (b: seq<Product>)
    ensures k !in Keys(g) ==> b == []
    ensures forall i :: 0 <= i < |g| && g[i].0 == k && k !in Keys(g[..i]) ==> b == g[i].1
  {
    if g == [] then []
    else if g[0].0 == k then g[0].1
    else
      assert forall i :: 1 <= i <= |g| ==> Keys(g[..i]) == [g[0].0] + Keys(g[1..][..i - 1]) by {
        forall i | 1 <= i <= |g|
          ensures Keys(g[..i]) == [g[0].0] + Keys(g[1..][..i - 1])
        {
          assert g[..i][1..] == g[1..][..i - 1];
        }
      }
      Lookup(g[1..], k)
  }

  /** The number of products held in all buckets together. */
  function TotalSize<K>(g: seq<(K, seq<Product>)>): nat {
    if g == [] then 0 else |g[0].1| + TotalSize(g[1..])
  }

  /** `grouped[k].append(p)`: extends the bucket of `k`, creating it at the end when new. */
  function Insert(g: Groups, k: Cell, p: Product): (r: Groups)
    ensures Keys(r) == if k in Keys(g) then Keys(g) else Keys(g) + [k]
    ensures forall j :: Lookup(r, j) == Lookup(g, j) + (if j == k then [p] else [])
    ensures TotalSize(r) == TotalSize(g) + 1
  {
    if g == [] then [(k, [p])]
    else if g[0].0 == k then [(k, g[0].1 + [p])] + g[1..]
    else [g[0]] + Insert(g[1..], k, p)
  }

  /** The category column of the sheet, row by row. */
  function Categories(rows: seq<Row>): seq<Cell> {
    seq(|rows|, i requires 0 <= i < |rows| => rows[i].category)
  }

  /**
    Reference definition of one bucket, independent of any dictionary: the
    products of the rows of category `k`, in row order.
   */
  function Bucket(rows: seq<Row>, k: Cell): (b: seq<Product>)
    ensures |b| <= |rows|
    ensures forall p :: p in b ==>
              exists i :: 0 <= i < |rows| && rows[i].category == k && MakeProduct(rows[i]) == p
  {
    if rows == [] then []
    else
      var init := rows[..|rows| - 1];
      var last := rows[|rows| - 1];
      assert forall i :: 0 <= i < |init| ==> init[i] == rows[i];
      Bucket(init, k) + (if last.category == k then [MakeProduct(last)] else [])
  }

  /**
    Each distinct element of `cs` once, in order of first occurrence: an
    earlier element of the result occurs in `cs` before any occurrence of a
    later one.
   */
  function FirstOccurrences(cs: seq<Cell>): (r: seq<Cell>)
    ensures Distinct(r)
    ensures forall c :: c in r <==> c in cs
    ensures forall i, j, m :: 0 <= i < j < |r| && 0 <= m < |cs| && cs[m] == r[j] ==> r[i] in cs[..m]
  {
    if cs == [] then []
    else
      var init := FirstOccurrences(cs[..|cs| - 1]);
      var last := cs[|cs| - 1];
      assert cs == cs[..|cs| - 1] + [last];
      if last in init then init else init + [last]
  }

  /** The grouping the loop over the sheet builds. */
  function Group(rows: seq<Row>): (g: Groups)
    ensures Keys(g) == FirstOccurrences(Categories(rows))
    ensures forall k :: Lookup(g, k) == Bucket(rows, k)
    ensures TotalSize(g) == |rows|
  {
    if rows == [] then []
    else
      var last := rows[|rows| - 1];
      assert Categories(rows) == Categories(rows[..|rows| - 1]) + [last.category];
      Insert(Group(rows[..|rows| - 1]), last.category, MakeProduct(last))
  }

  /** A value occurs in the category column exactly when some row has it as category. */
  lemma CategoriesMembers(rows: seq<Row>, k: Cell)
    ensures k in Categories(rows) <==> exists i :: 0 <= i < |rows| && rows[i].category == k
  {
    var cs := Categories(rows);
    assert |cs| == |rows|;
    if k in cs {
      var i :| 0 <= i < |cs| && cs[i] == k;
      assert rows[i].category == k;
    }
    if i :| 0 <= i < |rows| && rows[i].category == k {
      assert cs[i] == k;
    }
  }

  /** The keys of the grouping are distinct and are exactly the categories that occur. */
  lemma {:induction false} GroupKeys(rows: seq<Row>, k: Cell)
    ensures Distinct(Keys(Group(rows)))
    ensures k in Keys(Group(rows)) <==> exists i :: 0 <= i < |rows| && rows[i].category == k
  {
    var cs := Categories(rows);
    var ks := Keys(Group(rows));
    assert ks == FirstOccurrences(cs);
    assert Distinct(ks);
    assert k in ks <==> k in cs;
    CategoriesMembers(rows, k);
  }

  /** A row's product lands in the bucket of its own category. */
  lemma {:induction false} RowInOwnBucket(rows: seq<Row>, i: nat)
    requires i < |rows|
    ensures MakeProduct(rows[i]) in Lookup(Group(rows), rows[i].category)
  {
    BucketHoldsRow(rows, i);
  }

  lemma {:induction false} BucketHoldsRow(rows: seq<Row>, i: nat)
    requires i < |rows|
    ensures MakeProduct(rows[i]) in Bucket(rows, rows[i].category)
  {
    if i < |rows| - 1 {
      BucketHoldsRow(rows[..|rows| - 1], i);
      assert rows[..|rows| - 1][i] == rows[i];
    }
  }
}
