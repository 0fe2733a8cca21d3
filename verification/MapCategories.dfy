/** The regrouping of a size report's rows by category. */
module MapCategories {
  import opened Tally
  import opened MapReport

  datatype Totals = Totals(flash: int, ram: int, count: int)

  function PlusTotals(a: Totals, b: Totals): Totals {
    Totals(a.flash + b.flash, a.ram + b.ram, a.count + b.count)
  }

  const TOTALS: Adder<Totals> := Adder(Totals(0, 0, 0), PlusTotals)

  datatype Category = Category(category: string, flash: int, ram: int, count: int)

  function RowItem(r: Row): Entry<string, Totals> {
    Entry(r.category, Totals(r.flash, r.ram, 1))
  }

  function RowItems(rows: seq<Row>): (items: seq<Entry<string, Totals>>)
    ensures |items| == |rows| && forall i :: 0 <= i < |rows| ==> items[i] == RowItem(rows[i])
  {
    if rows == [] then [] else RowItems(rows[..|rows| - 1]) + [RowItem(rows[|rows| - 1])]
  }

  function CategoryOf(e: Entry<string, Totals>): Category {
    Category(e.key, e.value.flash, e.value.ram, e.value.count)
  }

  function Categories(t: seq<Entry<string, Totals>>): (cs: seq<Category>)
    ensures |cs| == |t| && forall i :: 0 <= i < |t| ==> cs[i] == CategoryOf(t[i])
  {
    if t == [] then [] else Categories(t[..|t| - 1]) + [CategoryOf(t[|t| - 1])]
  }

  function CategoryFlash(c: Category): int { c.flash }
  function CategoryRam(c: Category): int { c.ram }
  function CategoryCount(c: Category): int { c.count }
  function CategoryName(c: Category): string { c.category }

  function TotalFlash(z: Totals): int { z.flash }
  function TotalRam(z: Totals): int { z.ram }
  function TotalCount(z: Totals): int { z.count }

  /** What summarize_categories returns. */
  function Summary(rows: seq<Row>): seq<Category> {
    SortDown(Categories(Group(RowItems(rows), TOTALS)), CategoryFlash)
  }

  lemma MeasureConserved(rows: seq<Row>, ofCategory: Category -> int, ofTotals: Totals -> int, ofRow: Row -> int)
    requires Additive(TOTALS, ofTotals)
    requires forall e: Entry<string, Totals> :: ofCategory(CategoryOf(e)) == ofTotals(e.value)
    requires forall r: Row :: ofRow(r) == ofTotals(RowItem(r).value)
    ensures Sum(Summary(rows), ofCategory) == Sum(rows, ofRow)
  {
    hide CategoryOf, RowItem, Group, Additive, SortDown;
    var t := Group(RowItems(rows), TOTALS);
    SortConserves(Categories(t), CategoryFlash, ofCategory);
    SumPointwise(Categories(t), t, ofCategory, OfValue(ofTotals));
    GroupConserves(RowItems(rows), TOTALS, ofTotals);
    SumPointwise(RowItems(rows), rows, OfValue(ofTotals), ofRow);
  }

  /** The categories together hold exactly the flash, the RAM and the number of the rows. */
  lemma CategoriesConserve(rows: seq<Row>)
    ensures Sum(Summary(rows), CategoryFlash) == Sum(rows, RowFlash)
    ensures Sum(Summary(rows), CategoryRam) == Sum(rows, RowRam)
    ensures Sum(Summary(rows), CategoryCount) == |rows|
  {
    hide Summary;
    MeasureConserved(rows, CategoryFlash, TotalFlash, RowFlash);
    MeasureConserved(rows, CategoryRam, TotalRam, RowRam);
    MeasureConserved(rows, CategoryCount, TotalCount, Ones());
    SumOnes(rows);
  }

  /** From map-file lines to categories, no contribution is lost and none is counted twice. */
  lemma ReportConserves(ls: seq<Line>)
    ensures Sum(Summary(Rows(ls)), CategoryFlash) == Sum(Accepted(ls), FlashSize)
    ensures Sum(Summary(Rows(ls)), CategoryRam) == Sum(Accepted(ls), RamSize)
    ensures Sum(Summary(Rows(ls)), CategoryCount) == |Rows(ls)|
  {
    hide *;
    RowsConserve(ls);
    CategoriesConserve(Rows(ls));
  }

  function FlashIn(name: string): Row -> int {
    (r: Row) => if r.category == name then r.flash else 0
  }

  function RamIn(name: string): Row -> int {
    (r: Row) => if r.category == name then r.ram else 0
  }

  function CountIn(name: string): Row -> int {
    (r: Row) => if r.category == name then 1 else 0
  }

  /** Each category's totals are the sums over its rows. */
  lemma {:induction false} AddUpIsSum(rows: seq<Row>, name: string)
    ensures var z := AddUp(RowItems(rows), TOTALS, name);
      && z.flash == Sum(rows, FlashIn(name)) && z.ram == Sum(rows, RamIn(name))
      && z.count == Sum(rows, CountIn(name))
  {
    if rows != [] {
      var n := |rows| - 1;
      AddUpIsSum(rows[..n], name);
      assert RowItems(rows)[..n] == RowItems(rows[..n]);
    }
  }

  /** Every category of a row is listed once, other names are not, and each category holds the sums over its rows. */
  lemma CategoriesAreExact(rows: seq<Row>, name: string)
    ensures Sum(Summary(rows), Named(CategoryName, name)) ==
              if exists r :: r in rows && r.category == name then 1 else 0
    ensures forall c :: c in Summary(rows) && c.category == name ==>
              && c.flash == Sum(rows, FlashIn(name)) && c.ram == Sum(rows, RamIn(name))
              && c.count == Sum(rows, CountIn(name))
  {
    hide Group, SortDown;
    var t := Group(RowItems(rows), TOTALS);
    GroupIsExact(RowItems(rows), TOTALS, name);
    SortConserves(Categories(t), CategoryFlash, Named(CategoryName, name));
    NamedOnce(t, Categories(t), CategoryName, name);
    ItemKeys(rows, name);
    AddUpIsSum(rows, name);
    forall c | c in Summary(rows) && c.category == name
      ensures c == CategoryOf(Entry(name, AddUp(RowItems(rows), TOTALS, name)))
    {
      SortMembers(Categories(t), CategoryFlash, c);
      var i :| 0 <= i < |t| && Categories(t)[i] == c;
      LookupAt(t, TOTALS, i);
    }
  }

  /** Categories descend by flash; of two alike, the one whose first row came first comes first. */
  lemma CategoriesAreOrdered(rows: seq<Row>, i: nat, j: nat)
    requires i < j < |Summary(rows)|
    ensures var c, d := Summary(rows)[i], Summary(rows)[j];
      && c.flash >= d.flash
      && (c.flash == d.flash ==>
            exists m, n :: 0 <= m < n < |FirstKeys(RowItems(rows))|
              && FirstKeys(RowItems(rows))[m] == c.category && FirstKeys(RowItems(rows))[n] == d.category)
  {
    hide Group, SortDown, RowItems, FirstKeys;
    var t := Group(RowItems(rows), TOTALS);
    SortDescends(Categories(t), CategoryFlash);
    if Summary(rows)[i].flash == Summary(rows)[j].flash {
      var m, n := SortKeepsOrder(Categories(t), CategoryFlash, i, j);
      GroupOrder(RowItems(rows), TOTALS);
      assert FirstKeys(RowItems(rows))[m] == t[m].key && FirstKeys(RowItems(rows))[n] == t[n].key;
    }
  }

  lemma ItemKeys(rows: seq<Row>, name: string)
    ensures HasKey(RowItems(rows), name) <==> exists r :: r in rows && r.category == name
  {
    if HasKey(RowItems(rows), name) {
      var i :| 0 <= i < |rows| && RowItems(rows)[i].key == name;
      assert rows[i] in rows;
    }
    if r :| r in rows && r.category == name {
      var i :| 0 <= i < |rows| && rows[i] == r;
      assert RowItems(rows)[i].key == name;
    }
  }

  /** summarize_categories */
  method SummarizeCategories(rows: seq<Row>) returns (summary: seq<Category>)
    ensures summary == Summary(rows)
  {
    hide Group, SortDown, Bump, Put, Lookup;
    var totals: seq<Entry<string, Totals>> := [];
    assert totals == Group(RowItems([]), TOTALS) && rows[..0] == [] by { NoRows(); }
    var i := 0;
    while i < |rows|
      invariant i <= |rows| && totals == Group(RowItems(rows[..i]), TOTALS)
    {
      var row := rows[i];
      var z := Lookup(totals, TOTALS, row.category);
      z := z.(flash := z.flash + row.flash);
      z := z.(ram := z.ram + row.ram);
      z := z.(count := z.count + 1);
      BumpIsPut(totals, TOTALS, row.category, Totals(row.flash, row.ram, 1));
      totals := Put(totals, row.category, z);
      GroupStep(rows[..i], row);
      assert rows[..i] + [row] == rows[..i + 1];
      i := i + 1;
    }
    assert rows[..i] == rows;
    summary := [];
    i := 0;
    while i < |totals|
      invariant i <= |totals| && |summary| == i
      invariant forall k :: 0 <= k < i ==> summary[k] == CategoryOf(totals[k])
    {
      summary := summary + [CategoryOf(totals[i])];
      i := i + 1;
    }
    assert summary == Categories(totals);
    summary := SortDown(summary, CategoryFlash);
  }

  lemma NoRows()
    ensures Group(RowItems([]), TOTALS) == []
  {
  }

  lemma GroupStep(rows: seq<Row>, r: Row)
    ensures Group(RowItems(rows + [r]), TOTALS) ==
              Bump(Group(RowItems(rows), TOTALS), TOTALS, r.category, Totals(r.flash, r.ram, 1))
  {
    hide Bump;
    assert RowItems(rows + [r]) == RowItems(rows) + [RowItem(r)];
    assert RowItems(rows + [r])[..|rows|] == RowItems(rows);
  }
}
