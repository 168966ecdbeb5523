/** The rental listing filter: the spreadsheet grid minus its header row, each
    row a sequence of optional text cells read by column position, and the
    predicate that keeps a row when its title or address contains the search
    text, its price lies in the price range and it has at least the chosen
    number of bedrooms and bathrooms. */
module Listing {
  import opened Wrappers
  import opened Seqs
  import opened Text

  /** A spreadsheet cell: text, or absent (a short row, an empty trailing
      cell, or a value that is not a string). */
  type Cell = Option<string>

  type Row = seq<Cell>

  const PriceColumn: nat := 2
  const TitleColumn: nat := 4
  const AddressColumn: nat := 5
  const BedsColumn: nat := 6
  const BathsColumn: nat := 7

  /** The search text and the four numeric thresholds the page lets the user set. */
  datatype Filters = Filters(search: string, minPrice: int, maxPrice: int, bedrooms: int, bathrooms: int)

  /** The thresholds the page starts with. */
  const InitialFilters := Filters("", 0, 1000000, 1, 1)

  /** `row[i]`: an index past the end of the row reads as absent. */
  function CellAt(row: Row, i: nat): (c: Cell)
    ensures i < |row| ==> c == row[i]
    ensures i >= |row| ==> c == None
  {
    if i < |row| then row[i] else None
  }

  /** The text of a cell, an absent cell reading as the empty string. */
  function CellText(row: Row, i: nat): (s: string)
    ensures i < |row| && row[i].Some? ==> s == row[i].value
    ensures i >= |row| || row[i].None? ==> s == ""
  {
    CellAt(row, i).GetOr("")
  }

  /** `data.slice(1)`: every row but the first, which holds the column headings. */
  function DropHeader(data: seq<Row>): (rows: seq<Row>)
    ensures |rows| == if data == [] then 0 else |data| - 1
    ensures forall i :: 0 <= i < |rows| ==> rows[i] == data[i + 1]
  {
    if data == [] then [] else data[1..]
  }

  /** The price: every non-digit of the price cell removed and the rest read
      as a decimal number, 0 when nothing is left. */
  function Price(row: Row): (p: nat)
    ensures CellAt(row, PriceColumn) == None ==> p == 0
    ensures AllDigits(CellText(row, PriceColumn)) ==> p == ParseDecimal(CellText(row, PriceColumn))
  {
    ParseDecimal(KeepDigits(CellText(row, PriceColumn)))
  }

  /** `parseInt(row[6]) || 0`: 0 unless the cell starts with a digit, and the
      number itself when the cell is a plain digit string. */
  function Beds(row: Row): (b: nat)
    ensures var cell := CellText(row, BedsColumn); cell == [] || !IsDigit(cell[0]) ==> b == 0
    ensures AllDigits(CellText(row, BedsColumn)) ==> b == ParseDecimal(CellText(row, BedsColumn))
  {
    ParseIntPrefix(CellText(row, BedsColumn))
  }

  /** `parseInt(row[7]) || 0`, read like the bedroom count. */
  function Baths(row: Row): (b: nat)
    ensures var cell := CellText(row, BathsColumn); cell == [] || !IsDigit(cell[0]) ==> b == 0
    ensures AllDigits(CellText(row, BathsColumn)) ==> b == ParseDecimal(CellText(row, BathsColumn))
  {
    ParseIntPrefix(CellText(row, BathsColumn))
  }

  /** The lower-cased search text occurs in the lower-cased title or address.
      The empty search matches every row, even one with no title and no
      address; a search longer than both texts matches none. */
  predicate MatchesSearch(row: Row, search: string): (m: bool)
    ensures search == "" ==> m
    ensures m ==> |search| <= |CellText(row, TitleColumn)| || |search| <= |CellText(row, AddressColumn)|
  {
    var needle := ToLower(search);
    IncludesEmpty(ToLower(CellText(row, TitleColumn)));
    || Includes(ToLower(CellText(row, TitleColumn)), needle)
    || Includes(ToLower(CellText(row, AddressColumn)), needle)
  }

  /** The five conditions a row must meet to be shown. An inverted price
      range shows nothing, and a positive bedroom or bathroom threshold hides
      every row without that cell. */
  predicate Keep(row: Row, f: Filters): (k: bool)
    ensures f.minPrice > f.maxPrice ==> !k
    ensures f.bedrooms > 0 && CellAt(row, BedsColumn) == None ==> !k
    ensures f.bathrooms > 0 && CellAt(row, BathsColumn) == None ==> !k
  {
    && MatchesSearch(row, f.search)
    && f.minPrice <= Price(row)
    && Price(row) <= f.maxPrice
    && Beds(row) >= f.bedrooms
    && Baths(row) >= f.bathrooms
  }

  /** The row predicate as the callback handed to `filter`. */
  function Keeper(f: Filters): Row -> bool
  {
    row => Keep(row, f)
  }

  /** The listings shown: the data rows that pass the predicate, in their
      original order. */
  function FilteredRows(data: seq<Row>, f: Filters): (rows: seq<Row>)
    ensures IsSubsequence(rows, DropHeader(data))
    ensures forall row :: row in rows <==> row in DropHeader(data) && Keep(row, f)
    ensures forall row :: multiset(rows)[row] == if Keep(row, f) then multiset(DropHeader(data))[row] else 0
  {
    FilterIsSubsequence(DropHeader(data), Keeper(f));
    FilterMembers(DropHeader(data), Keeper(f));
    FilterCounts(DropHeader(data), Keeper(f));
    Filter(DropHeader(data), Keeper(f))
  }

  // ---------------------------------------------------------------------------
  // Price parsing
  // ---------------------------------------------------------------------------

  /** The price is 0 exactly when the price cell holds no digit other than
      '0': it is absent, has no digits at all, or its digits are all zeros. */
  lemma PriceZero(row: Row)
    ensures Price(row) == 0 <==> forall c :: c in CellText(row, PriceColumn) && IsDigit(c) ==> c == '0'
  {
    var s := CellText(row, PriceColumn);
    var r := KeepDigits(s);
    ParseDecimalZero(r);
    assert r == Filter(s, IsDigit);
    FilterMembers(s, IsDigit);
    assert (forall i :: 0 <= i < |r| ==> r[i] == '0') <==> (forall c :: c in r ==> c == '0');
  }

  /** A row whose price cell is absent or has no digits has price 0, so any
      positive minimum price hides it. */
  lemma NoPriceExcluded(row: Row, f: Filters)
    requires !HasDigit(CellText(row, PriceColumn))
    ensures Price(row) == 0
    ensures f.minPrice > 0 ==> !Keep(row, f)
  {
    assert KeepDigits(CellText(row, PriceColumn)) == [];
  }

  /** A price as the sheet writes it: the currency symbol, the thousands
      separator and the suffix are ignored. */
  lemma WeeklyRentPrice()
    ensures Price([None, None, Some("$1,200/wk")]) == 1200
  {
    WeeklyRentDigits();
    Decimal1200();
  }

  lemma WeeklyRentDigits()
    ensures KeepDigits("$1,200/wk") == "1200"
  {
    assert Filter("$1,200/wk", IsDigit) == "1200";
  }

  lemma Decimal1200()
    ensures ParseDecimal("1200") == 1200
  {
    assert "1200"[..3] == "120" && "120"[..2] == "12" && "12"[..1] == "1" && "1"[..0] == "";
  }

  /** A decimal point is removed like any other non-digit, so the cents are
      read as part of the number. */
  lemma CentsPrice()
    ensures Price([None, None, Some("$9.50")]) == 950
  {
    CentsDigits();
  }

  lemma CentsDigits()
    ensures KeepDigits("$9.50") == "950"
    ensures ParseDecimal("950") == 950
  {
    assert "950"[..2] == "95" && "95"[..1] == "9" && "9"[..0] == "";
  }

  // ---------------------------------------------------------------------------
  // Text search
  // ---------------------------------------------------------------------------

  /** The lower-cased search text occurs at some position of the lower-cased
      title or of the lower-cased address. */
  ghost predicate SearchOccurs(row: Row, search: string)
  {
    exists i ::
      || OccursAt(ToLower(CellText(row, TitleColumn)), ToLower(search), i)
      || OccursAt(ToLower(CellText(row, AddressColumn)), ToLower(search), i)
  }

  /** The search matches exactly when the search text occurs, up to case, in
      the title or in the address. */
  lemma MatchesSearchOccurs(row: Row, search: string)
    ensures MatchesSearch(row, search) <==> SearchOccurs(row, search)
  {
    var title, address, needle := ToLower(CellText(row, TitleColumn)), ToLower(CellText(row, AddressColumn)), ToLower(search);
    if Includes(title, needle) {
      var i :| OccursAt(title, needle, i);
      assert OccursAt(title, needle, i) || OccursAt(address, needle, i);
    } else if Includes(address, needle) {
      var i :| OccursAt(address, needle, i);
      assert OccursAt(title, needle, i) || OccursAt(address, needle, i);
    } else {
      assert !MatchesSearch(row, search);
    }
  }

  /** A row is shown exactly when all five conditions hold: the search text
      occurs, up to case, in its title or address, its price lies in the
      inclusive range, and its bedroom and bathroom counts reach the
      thresholds. */
  lemma KeepExactly(row: Row, f: Filters)
    ensures Keep(row, f) <==>
      && SearchOccurs(row, f.search)
      && f.minPrice <= Price(row) <= f.maxPrice
      && Beds(row) >= f.bedrooms
      && Baths(row) >= f.bathrooms
  {
    MatchesSearchOccurs(row, f.search);
  }

  /** A row whose title and address both lack the search text is hidden,
      whatever the thresholds. */
  lemma SearchHides(row: Row, f: Filters)
    requires !Includes(ToLower(CellText(row, TitleColumn)), ToLower(f.search))
    requires !Includes(ToLower(CellText(row, AddressColumn)), ToLower(f.search))
    ensures !Keep(row, f)
  {
  }

  /** A row with neither title nor address matches only the empty search. */
  lemma NoTextMatchesOnlyEmptySearch(row: Row, search: string)
    requires CellAt(row, TitleColumn) == None && CellAt(row, AddressColumn) == None
    ensures MatchesSearch(row, search) <==> search == ""
  {
    IncludedInEmpty(ToLower(search));
  }

  /** Two rows whose cells read the same up to ASCII case. */
  ghost predicate CaseVariants(a: Row, b: Row)
  {
    forall i: nat :: ToLower(CellText(a, i)) == ToLower(CellText(b, i))
  }

  /** Search is case-insensitive and cell case is irrelevant: changing the
      case of the search text or of any cell never changes whether a row is
      kept. */
  lemma KeepIgnoresCase(a: Row, b: Row, f: Filters, g: Filters)
    requires CaseVariants(a, b)
    requires ToLower(f.search) == ToLower(g.search)
    requires f.minPrice == g.minPrice && f.maxPrice == g.maxPrice
    requires f.bedrooms == g.bedrooms && f.bathrooms == g.bathrooms
    ensures Keep(a, f) <==> Keep(b, g)
  {
    NumbersIgnoreCase(a, b);
    assert ToLower(CellText(a, TitleColumn)) == ToLower(CellText(b, TitleColumn));
    assert ToLower(CellText(a, AddressColumn)) == ToLower(CellText(b, AddressColumn));
    assert MatchesSearch(a, f.search) <==> MatchesSearch(b, g.search);
  }

  /** Price, bedrooms and bathrooms read the same from rows equal up to case. */
  lemma NumbersIgnoreCase(a: Row, b: Row)
    requires CaseVariants(a, b)
    ensures Price(a) == Price(b) && Beds(a) == Beds(b) && Baths(a) == Baths(b)
  {
    var p, q := CellText(a, PriceColumn), CellText(b, PriceColumn);
    assert ToLower(p) == ToLower(q);
    KeepDigitsIgnoresCase(p, q);
    var x, y := CellText(a, BedsColumn), CellText(b, BedsColumn);
    assert ToLower(x) == ToLower(y);
    LeadingDigitsIgnoreCase(x, y);
    var u, v := CellText(a, BathsColumn), CellText(b, BathsColumn);
    assert ToLower(u) == ToLower(v);
    LeadingDigitsIgnoreCase(u, v);
  }

  // ---------------------------------------------------------------------------
  // The thresholds
  // ---------------------------------------------------------------------------

  /** Every bound is inclusive: a row whose price equals the minimum or the
      maximum, and whose bedroom and bathroom counts equal the thresholds,
      is kept when its text matches. */
  lemma BoundsInclusive(row: Row, search: string)
    requires MatchesSearch(row, search)
    ensures Keep(row, Filters(search, Price(row), Price(row), Beds(row), Baths(row)))
  {
  }

  /** At start-up every row is searched for "" and so matches; a row is then
      shown exactly when its price is at most 1000000 and it has at least one
      bedroom and one bathroom (a row whose bedroom cell is absent is hidden). */
  lemma InitialFiltersKeep(row: Row)
    ensures Keep(row, InitialFilters) <==> Price(row) <= 1000000 && Beds(row) >= 1 && Baths(row) >= 1
  {
  }

  /** `g` is at least as strict as `f`: a search containing `f`'s (up to case),
      a higher or equal minimum price, bedroom and bathroom count, and a lower
      or equal maximum price. */
  predicate Tighter(g: Filters, f: Filters)
  {
    && Includes(ToLower(g.search), ToLower(f.search))
    && g.minPrice >= f.minPrice
    && g.maxPrice <= f.maxPrice
    && g.bedrooms >= f.bedrooms
    && g.bathrooms >= f.bathrooms
  }

  /** A row kept by stricter filters is kept by looser ones. */
  lemma KeepMonotone(row: Row, g: Filters, f: Filters)
    requires Tighter(g, f)
    ensures Keep(row, g) ==> Keep(row, f)
  {
    var needle, n := ToLower(g.search), ToLower(f.search);
    var title, address := ToLower(CellText(row, TitleColumn)), ToLower(CellText(row, AddressColumn));
    if Includes(title, needle) {
      IncludesTransitive(title, needle, n);
    }
    if Includes(address, needle) {
      IncludesTransitive(address, needle, n);
    }
  }

  /** Tightening the filters shows a subsequence of what was shown before. */
  lemma TighterShowsSubsequence(data: seq<Row>, g: Filters, f: Filters)
    requires Tighter(g, f)
    ensures IsSubsequence(FilteredRows(data, g), FilteredRows(data, f))
  {
    forall row ensures Keeper(g)(row) ==> Keeper(f)(row) {
      KeepMonotone(row, g, f);
    }
    FilterMonotone(DropHeader(data), Keeper(g), Keeper(f));
  }

  /** Filtering the shown rows again with the same filters changes nothing. */
  lemma RefilterUnchanged(data: seq<Row>, f: Filters)
    ensures Filter(FilteredRows(data, f), Keeper(f)) == FilteredRows(data, f)
  {
    FilterIdempotent(DropHeader(data), Keeper(f));
  }

  /** A worked listing priced "$1,200/wk" with 2 bedrooms and 1 bathroom:
      the price range [1200, 1200] and the thresholds 2 and 1 all admit it,
      while one dollar more on the minimum, one dollar less on the maximum or
      one more bedroom excludes it. */
  lemma ListingExample(row: Row, search: string)
    requires CellText(row, PriceColumn) == "$1,200/wk"
    requires CellText(row, BedsColumn) == "2" && CellText(row, BathsColumn) == "1"
    requires MatchesSearch(row, search)
    ensures Keep(row, Filters(search, 1200, 1200, 2, 1))
    ensures !Keep(row, Filters(search, 1201, 2000, 2, 1))
    ensures !Keep(row, Filters(search, 0, 1199, 2, 1))
    ensures !Keep(row, Filters(search, 0, 2000, 3, 1))
  {
    WeeklyRentDigits();
    Decimal1200();
    SmallCounts();
  }

  lemma SmallCounts()
    ensures ParseIntPrefix("2") == 2 && ParseIntPrefix("1") == 1
  {
    assert LeadingDigits("2") == "2" by { assert "2"[1..] == ""; }
    assert LeadingDigits("1") == "1" by { assert "1"[1..] == ""; }
    assert "2"[..0] == "" && "1"[..0] == "";
  }
}
