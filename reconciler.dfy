/**
 reconcile_countries_by_name: sort the plot library's country codes by whether
 the World Bank table has any value at all for the country of the same name.
 */
module Reconciler {
  import opened Wrappers
  import opened Dicts
  import opened GdpData

  /** The has-data dict (code to name) and the no-data set of codes. */
  datatype Reconciled = Reconciled(yes: map<Code, Name>, no: set<Code>)

  /** `row['Country Name']`: the cell of that column, None where Python raises KeyError. */
  function RowName(row: Row): (r: Option<Name>)
    ensures r.None? <==> forall i | 0 <= i < |row| :: row[i].0 != CountryNameColumn
    ensures forall i | 0 <= i < |row| && row[i].0 == CountryNameColumn :: r == Some(row[i].1)
  {
    Get(row, CountryNameColumn)
  }

  ghost predicate AllNamed(table: seq<Row>) {
    forall i | 0 <= i < |table| :: RowName(table[i]).Some?
  }

  /**
   The catalog code a row is matched to: the first code whose name is the row's
   name. There is one exactly when the row is named and its name is a catalog
   value, and the catalog maps the code back to the row's name.
   */
  function MatchedCode(catalog: Catalog, row: Row): (r: Option<Code>)
    ensures r.Some? <==> RowName(row).Some? && RowName(row).value in Values(catalog)
    ensures r.Some? ==> Get(catalog, r.value) == RowName(row)
  {
    match RowName(row)
    case None => None
    case Some(name) =>
      if FindCode(catalog, name).Some? then FindCodeMapsBack(catalog, name); FindCode(catalog, name)
      else FindCode(catalog, name)
  }

  /** The codes matched by rows whose data status (HasData) is `withData`. */
  ghost function MatchedCodes(catalog: Catalog, table: seq<Row>, withData: bool): set<Code> {
    set i | 0 <= i < |table| && HasData(table[i]) == withData && MatchedCode(catalog, table[i]).Some?
      :: MatchedCode(catalog, table[i]).value
  }

  /**
   What reconciling yields: a KeyError when some row has no "Country Name"
   column; otherwise every code matched by a row with data, mapped to its
   catalog name, and the set of codes matched by rows without data.
   */
  ghost function Reconciliation(catalog: Catalog, table: seq<Row>): Result<Reconciled, Fault> {
    if AllNamed(table) then
      var yes := MatchedCodes(catalog, table, true);
      Ok(Reconciled(map k | k in yes && Get(catalog, k).Some? :: Get(catalog, k).value,
                    MatchedCodes(catalog, table, false)))
    else Err(KeyError(CountryNameColumn))
  }

  lemma MatchedCodesSnoc(catalog: Catalog, table: seq<Row>, row: Row, withData: bool)
    ensures MatchedCodes(catalog, table + [row], withData) ==
            MatchedCodes(catalog, table, withData) +
            (if HasData(row) == withData && MatchedCode(catalog, row).Some?
             then {MatchedCode(catalog, row).value} else {})
  {
    var t := table + [row];
    forall i | 0 <= i < |table| ensures t[i] == table[i] { }
    assert t[|table|] == row;
  }

  /** The state the loop below ends in is the reconciliation of the whole table. */
  lemma LoopResult(catalog: Catalog, table: seq<Row>, yes: map<Code, Name>, no: set<Code>)
    requires AllNamed(table)
    requires yes.Keys == MatchedCodes(catalog, table, true)
    requires forall k | k in yes :: Get(catalog, k) == Some(yes[k])
    requires no == MatchedCodes(catalog, table, false)
    ensures Reconciliation(catalog, table) == Ok(Reconciled(yes, no))
  {
    var codes := MatchedCodes(catalog, table, true);
    var spec := map k | k in codes && Get(catalog, k).Some? :: Get(catalog, k).value;
    assert spec == yes by {
      forall k | k in codes ensures k in spec && spec[k] == yes[k] {
        assert Get(catalog, k) == Some(yes[k]);
      }
    }
    assert Reconciliation(catalog, table) == Ok(Reconciled(spec, no));
  }

  /** The loop of lines 49-59, over the table's rows in iteration order. */
  method ReconcileCountriesByName(catalog: Catalog, table: seq<Row>) returns (r: Result<Reconciled, Fault>)
    ensures r == Reconciliation(catalog, table)
  {
    var yes: map<Code, Name> := map[];
    var no: set<Code> := {};
    for i := 0 to |table|
      invariant AllNamed(table[..i])
      invariant yes.Keys == MatchedCodes(catalog, table[..i], true)
      invariant forall k | k in yes :: Get(catalog, k) == Some(yes[k])
      invariant no == MatchedCodes(catalog, table[..i], false)
    {
      var row := table[i];
      assert table[..i + 1] == table[..i] + [row];
      MatchedCodesSnoc(catalog, table[..i], row, true);
      MatchedCodesSnoc(catalog, table[..i], row, false);
      var country := RowName(row);
      if country.None? {
        assert !AllNamed(table) by { assert RowName(table[i]).None?; }
        return Err(KeyError(CountryNameColumn));
      }
      var code := FindCode(catalog, country.value);
      if code.Some? {
        if HasData(row) {
          yes := yes[code.value := country.value];
        } else {
          no := no + {code.value};
        }
      }
    }
    assert table[..|table|] == table;
    LoopResult(catalog, table, yes, no);
    r := Ok(Reconciled(yes, no));
  }

  /** No two rows share a country name, as when the table is keyed by "Country Name". */
  ghost predicate UniqueNames(table: seq<Row>) {
    forall i, j | 0 <= i < j < |table| :: RowName(table[i]) != RowName(table[j])
  }

  /**
   Both outputs hold catalog codes only: a code is in the has-data dict exactly
   when some row with data is matched to it, and then it maps to its catalog
   name; a code is in the no-data set exactly when some row without data is
   matched to it.
   */
  lemma ReconciledCodes(catalog: Catalog, table: seq<Row>)
    requires Reconciliation(catalog, table).Ok?
    ensures var rec := Reconciliation(catalog, table).value;
      && (forall k :: k in rec.yes <==>
            exists i | 0 <= i < |table| :: HasData(table[i]) && MatchedCode(catalog, table[i]) == Some(k))
      && (forall k | k in rec.yes :: Get(catalog, k) == Some(rec.yes[k]))
      && (forall k :: k in rec.no <==>
            exists i | 0 <= i < |table| :: !HasData(table[i]) && MatchedCode(catalog, table[i]) == Some(k))
      && (forall k | k in rec.no :: Get(catalog, k).Some?)
  {
    var rec := Reconciliation(catalog, table).value;
    forall k | k in MatchedCodes(catalog, table, true) + MatchedCodes(catalog, table, false)
      ensures Get(catalog, k).Some?
    {
      var i :| 0 <= i < |table| && MatchedCode(catalog, table[i]) == Some(k);
    }
  }

  /** `t` is `table` with `row` inserted at position `at`. */
  ghost predicate InsertedAt(t: seq<Row>, table: seq<Row>, row: Row, at: nat) {
    && at <= |table| && |t| == |table| + 1 && t[at] == row
    && (forall i | 0 <= i < at :: t[i] == table[i])
    && (forall i | at < i < |t| :: t[i] == table[i - 1])
  }

  lemma InsertedAtSlices(table: seq<Row>, row: Row, at: nat)
    requires at <= |table|
    ensures InsertedAt(table[..at] + [row] + table[at..], table, row, at)
  {
  }

  lemma InsertNamedRow(t: seq<Row>, table: seq<Row>, row: Row, at: nat)
    requires InsertedAt(t, table, row, at) && RowName(row).Some?
    ensures AllNamed(t) == AllNamed(table)
  {
    if AllNamed(t) {
      forall j | 0 <= j < |table| ensures RowName(table[j]).Some? {
        if j < at { assert t[j] == table[j]; } else { assert t[j + 1] == table[j]; }
      }
    }
  }

  lemma InsertUnmatchedRow(catalog: Catalog, t: seq<Row>, table: seq<Row>, row: Row, at: nat, withData: bool)
    requires InsertedAt(t, table, row, at) && MatchedCode(catalog, row).None?
    ensures MatchedCodes(catalog, t, withData) == MatchedCodes(catalog, table, withData)
  {
    forall k | k in MatchedCodes(catalog, t, withData) ensures k in MatchedCodes(catalog, table, withData) {
      var i :| 0 <= i < |t| && HasData(t[i]) == withData && MatchedCode(catalog, t[i]) == Some(k);
      var j := if i < at then i else i - 1;
      assert t[i] == table[j];
    }
    forall k | k in MatchedCodes(catalog, table, withData) ensures k in MatchedCodes(catalog, t, withData) {
      var j :| 0 <= j < |table| && HasData(table[j]) == withData && MatchedCode(catalog, table[j]) == Some(k);
      var i := if j < at then j else j + 1;
      assert t[i] == table[j];
    }
  }

  /** A row whose country name is not in the catalog changes nothing, wherever it stands. */
  lemma UnmatchedRowIgnored(catalog: Catalog, table: seq<Row>, row: Row, at: nat)
    requires at <= |table|
    requires RowName(row).Some? && MatchedCode(catalog, row).None?
    ensures Reconciliation(catalog, table[..at] + [row] + table[at..]) == Reconciliation(catalog, table)
  {
    var t := table[..at] + [row] + table[at..];
    InsertedAtSlices(table, row, at);
    InsertNamedRow(t, table, row, at);
    InsertUnmatchedRow(catalog, t, table, row, at, true);
    InsertUnmatchedRow(catalog, t, table, row, at, false);
  }

  /** Of two catalog entries with the same name, the later one's code is never chosen. */
  lemma LaterDuplicateNeverChosen(catalog: Catalog, table: seq<Row>, i: nat, j: nat)
    requires i < j < |catalog| && catalog[i].1 == catalog[j].1
    requires Reconciliation(catalog, table).Ok?
    ensures catalog[j].0 !in Reconciliation(catalog, table).value.yes
    ensures catalog[j].0 !in Reconciliation(catalog, table).value.no
  {
    ReconciledCodes(catalog, table);
    var code := catalog[j].0;
    forall r: Row | MatchedCode(catalog, r) == Some(code) ensures false {
      GetEntry(catalog, j);
      FindCodeSkipsLaterDuplicate(catalog, i, j);
    }
  }

  /** When row names are unique, no code is both in the has-data dict and in the no-data set. */
  lemma DisjointWhenNamesUnique(catalog: Catalog, table: seq<Row>)
    requires UniqueNames(table)
    requires Reconciliation(catalog, table).Ok?
    ensures Reconciliation(catalog, table).value.yes.Keys !! Reconciliation(catalog, table).value.no
  {
    var rec := Reconciliation(catalog, table).value;
    ReconciledCodes(catalog, table);
    forall k | k in rec.yes && k in rec.no ensures false {
      var i :| 0 <= i < |table| && HasData(table[i]) && MatchedCode(catalog, table[i]) == Some(k);
    }
  }
}
