/**
  The final catalog handed to the page template: the grouping projected onto a
  fixed priority list of category names, in that list's order. Categories that
  are not on the list are dropped without notice.
 */
module Ordering {
  import opened Cells
  import opened Products
  import opened Grouping

  /** The categories shown, in display order. */
  const Priority: seq<string> := ["Белые вина", "Красные вина", "Напитки"]

  /** An ordered dictionary from category name to its products. */
  type Catalog = seq<(string, seq<Product>)>

  /** `xs` is `ys` with some elements left out, the rest in the same order. */
  predicate SubsequenceOf<T(==)>(xs: seq<T>, ys: seq<T>)
    decreases |ys|
  {
    if xs == [] then true
    else if ys == [] then false
    else if xs[0] == ys[0] then SubsequenceOf(xs[1..], ys[1..])
    else SubsequenceOf(xs, ys[1..])
  }

  /**
    `{name: grouped[name] for name in order if name in grouped}`: the buckets
    of the listed names that occur, in list order. A name listed twice would
    appear twice here, where the dictionary keeps one key; the program only
    projects onto `Priority`, whose names are distinct.
   */
  function Project(g: Groups, order: seq<string>): (c: Catalog)
    ensures SubsequenceOf(Keys(c), order)
    ensures forall name :: name in Keys(c) <==> name in order && Str(name) in Keys(g)
    ensures forall i :: 0 <= i < |c| ==> c[i].1 == Lookup(g, Str(c[i].0))
    ensures Distinct(order) ==> Distinct(Keys(c))
  {
    if order == [] then []
    else
      var rest := Project(g, order[1..]);
      assert forall name :: name in order <==> name == order[0] || name in order[1..];
      if Str(order[0]) in Keys(g) then
        var c := [(order[0], Lookup(g, Str(order[0])))] + rest;
        assert Keys(c) == [order[0]] + Keys(rest) by {
          assert c[1..] == rest;
        }
        c
      else
        rest
  }

  /** A name's category is a key of the grouping exactly when some row has that category. */
  lemma NamedKeys(rows: seq<Row>)
    ensures forall name :: Str(name) in Keys(Group(rows)) <==>
              exists i :: 0 <= i < |rows| && rows[i].category == Str(name)
  {
    forall name
      ensures Str(name) in Keys(Group(rows)) <==>
                exists i :: 0 <= i < |rows| && rows[i].category == Str(name)
    {
      GroupKeys(rows, Str(name));
    }
  }

  /** The catalog the page is rendered from. */
  function BuildCatalog(rows: seq<Row>): (c: Catalog)
    ensures SubsequenceOf(Keys(c), Priority) && Distinct(Keys(c))
    ensures forall name :: name in Keys(c) <==>
              name in Priority && exists i :: 0 <= i < |rows| && rows[i].category == Str(name)
    ensures forall i :: 0 <= i < |c| ==> c[i].1 == Bucket(rows, Str(c[i].0))
    ensures rows == [] ==> c == []
  {
    var g := Group(rows);
    assert Distinct(Priority);
    NamedKeys(rows);
    Project(g, Priority)
  }

  /** The category cell names one of the listed categories. */
  predicate Listed(c: Cell, order: seq<string>) {
    c.Str? && c.s in order
  }

  /** The number of rows whose category is on the list. */
  function CountListed(rows: seq<Row>, order: seq<string>): nat {
    if rows == [] then 0
    else
      CountListed(rows[..|rows| - 1], order)
      + (if Listed(rows[|rows| - 1].category, order) then 1 else 0)
  }

  lemma {:induction false} CountListedNone(rows: seq<Row>)
    ensures CountListed(rows, []) == 0
  {
    if rows != [] {
      CountListedNone(rows[..|rows| - 1]);
    }
  }

  /** Rows on a list with a distinct head split into the head's bucket and the rest. */
  lemma {:induction false} CountListedSplit(rows: seq<Row>, order: seq<string>)
    requires order != [] && order[0] !in order[1..]
    ensures CountListed(rows, order) == |Bucket(rows, Str(order[0]))| + CountListed(rows, order[1..])
  {
    if rows != [] {
      CountListedSplit(rows[..|rows| - 1], order);
      var c := rows[|rows| - 1].category;
      assert Listed(c, order) <==> c == Str(order[0]) || Listed(c, order[1..]) by {
        assert forall name :: name in order <==> name == order[0] || name in order[1..];
      }
    }
  }

  /** The projected catalog holds exactly as many products as there are rows with a listed category. */
  lemma {:induction false} ProjectSize(rows: seq<Row>, order: seq<string>)
    requires Distinct(order)
    ensures TotalSize(Project(Group(rows), order)) == CountListed(rows, order)
  {
    var g := Group(rows);
    if order == [] {
      CountListedNone(rows);
    } else {
      assert Distinct(order[1..]);
      ProjectSize(rows, order[1..]);
      CountListedSplit(rows, order);
      var rest := Project(g, order[1..]);
      if Str(order[0]) in Keys(g) {
        var c := [(order[0], Lookup(g, Str(order[0])))] + rest;
        assert c[1..] == rest;
      }
    }
  }

  /**
    No product of a listed category is lost: the catalog holds one product for
    every row whose category is on the priority list, and nothing else.
   */
  lemma CatalogKeepsListedRows(rows: seq<Row>)
    ensures TotalSize(BuildCatalog(rows)) == CountListed(rows, Priority)
  {
    ProjectSize(rows, Priority);
  }

  /** Projecting a grouping that holds white wines and drinks but no red wines. */
  lemma ProjectWhiteAndDrinks(g: Groups)
    requires Str("Белые вина") in Keys(g) && Str("Напитки") in Keys(g)
    requires Str("Красные вина") !in Keys(g)
    ensures Keys(Project(g, Priority)) == ["Белые вина", "Напитки"]
  {
    assert Priority[1..] == ["Красные вина", "Напитки"];
    assert Priority[1..][1..] == ["Напитки"];
    assert ["Напитки"][1..] == [];
    var tail := Project(g, ["Напитки"]);
    assert tail == [("Напитки", Lookup(g, Str("Напитки")))];
    assert Project(g, ["Красные вина", "Напитки"]) == tail;
  }

  /**
    Rows of the categories Напитки, Белые вина and an unknown one, in any
    order, give the catalog Белые вина then Напитки; the unknown category is
    dropped.
   */
  lemma UnknownCategoryDropped(rows: seq<Row>)
    requires forall i :: 0 <= i < |rows| ==>
               rows[i].category in {Str("Напитки"), Str("Белые вина"), Str("Неизвестная")}
    requires exists i :: 0 <= i < |rows| && rows[i].category == Str("Напитки")
    requires exists i :: 0 <= i < |rows| && rows[i].category == Str("Белые вина")
    ensures Keys(BuildCatalog(rows)) == ["Белые вина", "Напитки"]
  {
    var g := Group(rows);
    GroupKeys(rows, Str("Белые вина"));
    GroupKeys(rows, Str("Напитки"));
    GroupKeys(rows, Str("Красные вина"));
    assert Str("Красные вина") !in Keys(g) by {
      assert Str("Красные вина") !in {Str("Напитки"), Str("Белые вина"), Str("Неизвестная")};
    }
    ProjectWhiteAndDrinks(g);
  }
}
