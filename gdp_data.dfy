/**
 The data the GDP map works on: the plot library's country catalog and the
 rows of the World Bank table, each row a dict from csv column name to cell.
 */
module GdpData {
  import opened Wrappers
  import opened Dicts

  /** A plot-library country code, such as "cn". */
  type Code = string
  /** A country's display name, such as "China". */
  type Name = string
  type Column = string
  /** A csv cell; the empty string means "no value". */
  type Cell = string

  /** One table row: column name to cell, in the csv header's order. */
  type Row = r: seq<(Column, Cell)> | UniqueKeys(r)

  /** The plot library's country dict (code to display name), in iteration order. */
  type Catalog = c: seq<(Code, Name)> | UniqueKeys(c)

  /** The exceptions the core can raise. */
  datatype Fault =
    | KeyError(key: string)  // a dict lookup of an absent key
    | ValueError             // `float` of a non-numeric cell, or `log10` of a non-positive number

  const CountryNameColumn: Column := "Country Name"

  /** Country Name, Country Code and the two indicator columns come before the year columns. */
  const LeadingColumns: nat := 4

  /** Python's `any` over strings: some cell is truthy, that is, non-empty. */
  function AnyTruthy(cells: seq<Cell>): (b: bool)
    ensures b <==> exists j | 0 <= j < |cells| :: cells[j] != ""
  {
    if cells == [] then false
    else cells[0] != "" || AnyTruthy(cells[1..])
  }

  /**
   The test of line 50: the row's values after the leading columns are not all
   empty, that is, some cell at position 4 or later is non-empty.
   */
  function HasData(row: Row): (b: bool)
    ensures b <==> exists j | LeadingColumns <= j < |row| :: row[j].1 != ""
  {
    var tail := Drop(Values(row), LeadingColumns);
    assert |Values(row)| == |row|;
    assert forall j | 0 <= j < |tail| :: tail[j] == row[LeadingColumns + j].1;
    assert forall j | LeadingColumns <= j < |row| :: row[j].1 == tail[j - LeadingColumns];
    AnyTruthy(tail)
  }

  /** The leading columns never matter: rows that agree from position 4 on agree on HasData. */
  lemma LeadingColumnsIgnored(a: Row, b: Row)
    requires |a| == |b|
    requires forall j | LeadingColumns <= j < |a| :: a[j].1 == b[j].1
    ensures HasData(a) == HasData(b)
  {
  }

  /**
   Reverse lookup of a display name: `name in d.values()`, then
   `list(d.keys())[list(d.values()).index(name)]`.
   */
  function FindCode(catalog: Catalog, name: Name): (r: Option<Code>)
    ensures r.None? <==> forall i | 0 <= i < |catalog| :: catalog[i].1 != name
    ensures r.Some? ==> exists i | 0 <= i < |catalog| ::
              catalog[i] == (r.value, name) && forall j | 0 <= j < i :: catalog[j].1 != name
  {
    var names := Values(catalog);
    assert |names| == |catalog| && forall k | 0 <= k < |catalog| :: names[k] == catalog[k].1;
    if name in names then
      var i := IndexOf(names, name);
      assert catalog[i] == (Keys(catalog)[i], name);
      Some(Keys(catalog)[i])
    else None
  }

  /** The code found for a name maps back to that name in the catalog. */
  lemma FindCodeMapsBack(catalog: Catalog, name: Name)
    requires FindCode(catalog, name).Some?
    ensures Get(catalog, FindCode(catalog, name).value) == Some(name)
  {
    var i :| 0 <= i < |catalog| && catalog[i] == (FindCode(catalog, name).value, name);
    GetEntry(catalog, i);
  }

  /** A catalog entry whose name already occurs earlier is never the one found. */
  lemma FindCodeSkipsLaterDuplicate(catalog: Catalog, i: nat, j: nat)
    requires i < j < |catalog| && catalog[i].1 == catalog[j].1
    ensures FindCode(catalog, catalog[j].1) != Some(catalog[j].0)
  {
  }
}
