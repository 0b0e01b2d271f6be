/**
 build_map_dict_by_name: for one year, split the has-data codes of the
 reconciliation into codes with a value that year and codes without one,
 and pass the no-data-ever codes through.
 */
module YearMap {
  import opened Wrappers
  import opened Dicts
  import opened GdpData
  import opened Reconciler

  /**
   The table re-keyed by country name (`all_countries_gdp`): rows are entered
   in order, so a later row with the same name replaces an earlier one.
   */
  ghost function ByName(table: seq<Row>): map<Name, Row>
    requires AllNamed(table)
  {
    if table == [] then map[]
    else
      var last := table[|table| - 1];
      ByName(table[..|table| - 1])[RowName(last).value := last]
  }

  /** Row `i` is the last row carrying its name. */
  ghost predicate LastNamed(table: seq<Row>, i: int)
    requires AllNamed(table)
  {
    0 <= i < |table| && forall j | i < j < |table| :: RowName(table[j]) != RowName(table[i])
  }

  lemma ByNameStep(table: seq<Row>)
    requires AllNamed(table) && table != []
    ensures AllNamed(table[..|table| - 1])
    ensures ByName(table) == ByName(table[..|table| - 1])[RowName(table[|table| - 1]).value := table[|table| - 1]]
  {
  }

  /** The country names of the table's rows. */
  ghost function Names(table: seq<Row>): set<Name> {
    set i | 0 <= i < |table| && RowName(table[i]).Some? :: RowName(table[i]).value
  }

  /** The index holds exactly the names of the table. */
  lemma {:induction false} ByNameKeys(table: seq<Row>)
    requires AllNamed(table)
    ensures ByName(table).Keys == Names(table)
  {
    if table != [] {
      var n := |table| - 1;
      var prefix := table[..n];
      ByNameStep(table);
      ByNameKeys(prefix);
      forall i | 0 <= i < n ensures prefix[i] == table[i] { }
      assert Names(table) == Names(prefix) + {RowName(table[n]).value};
    }
  }

  /** Under each name the index holds the last row carrying that name. */
  lemma {:induction false} ByNameLastWins(table: seq<Row>, i: nat)
    requires AllNamed(table) && LastNamed(table, i)
    ensures RowName(table[i]).value in ByName(table)
    ensures ByName(table)[RowName(table[i]).value] == table[i]
  {
    var n := |table| - 1;
    var prefix := table[..n];
    ByNameStep(table);
    if i < n {
      assert prefix[i] == table[i];
      assert LastNamed(prefix, i) by {
        forall j | i < j < |prefix| ensures RowName(prefix[j]) != RowName(prefix[i]) {
          assert prefix[j] == table[j];
        }
      }
      ByNameLastWins(prefix, i);
      assert RowName(table[n]) != RowName(table[i]);
    }
  }

  /** The loop of lines 81-83 (the row copy `dict(zip(...))` is the row itself). */
  method IndexByName(table: seq<Row>) returns (index: map<Name, Row>)
    requires AllNamed(table)
    ensures index == ByName(table)
  {
    index := map[];
    for i := 0 to |table|
      invariant AllNamed(table[..i])
      invariant index == ByName(table[..i])
    {
      assert table[..i + 1][..i] == table[..i];
      index := index[RowName(table[i]).value := table[i]];
    }
    assert table[..|table|] == table;
  }

  /** Where one has-data code ends up for the requested year. */
  datatype Slot<V> =
    | Plotted(value: V)         // the year's cell is non-empty and converts
    | NoDataThisYear            // the year's cell is empty
    | Failed(fault: Fault)      // the year's column is absent, or the cell does not convert
    | Unindexed                 // the code's name is not a name of the table

  /**
   Lines 87-91 for one row: read the cell of column `year` (KeyError when the
   row has no such column); an empty cell means no data that year; otherwise
   `convert` stands for `math.log10(float(cell))`, None meaning ValueError.
   */
  function YearSlot<V>(row: Row, year: Column, convert: Cell -> Option<V>): (s: Slot<V>)
    ensures s.Failed? <==> Get(row, year).None? || (Get(row, year).value != "" && convert(Get(row, year).value).None?)
    ensures s.NoDataThisYear? <==> Get(row, year) == Some("")
    ensures s.Plotted? ==> Get(row, year).Some? && convert(Get(row, year).value) == Some(s.value)
    ensures !s.Unindexed?
    ensures Get(row, year).None? ==> s == Failed(KeyError(year))
    ensures Get(row, year).Some? && Get(row, year).value != "" && convert(Get(row, year).value).None? ==> s == Failed(ValueError)
  {
    match Get(row, year)
    case None => Failed(KeyError(year))
    case Some(cell) =>
      if cell != "" then
        match convert(cell)
        case Some(v) => Plotted(v)
        case None => Failed(ValueError)
      else NoDataThisYear
  }

  /** The slot of a code of the has-data dict `yes`: its country's row, found by name in `index`, read at `year`. */
  ghost function SlotIn<V>(yes: map<Code, Name>, index: map<Name, Row>, year: Column, convert: Cell -> Option<V>,
                           code: Code): Slot<V>
    requires code in yes
  {
    var name := yes[code];
    if name in index then YearSlot(index[name], year, convert) else Unindexed
  }

  /** The three collections handed to the map: values by code, no data this year, no data ever. */
  datatype Partition<V> = Partition(gdp: map<Code, V>, noGdpThisYear: set<Code>, missing: set<Code>)

  /**
   The results the loop of lines 85-91 may end with, given the has-data dict
   `yes`, the no-data set `no` and the name index. When some has-data code
   fails, the result is the fault of one such code (which one depends on the
   dict's iteration order, left open here); when none fails, the result holds
   the plotted codes with their values, the codes whose cell is empty, and
   `no` unchanged.
   */
  ghost predicate PartitionOutcome<V>(yes: map<Code, Name>, no: set<Code>, index: map<Name, Row>, year: Column,
                                      convert: Cell -> Option<V>, r: Result<Partition<V>, Fault>)
  {
    if exists k | k in yes :: SlotIn(yes, index, year, convert, k).Failed? then
      r.Err? && exists k | k in yes ::
        SlotIn(yes, index, year, convert, k).Failed? && SlotIn(yes, index, year, convert, k).fault == r.error
    else
      r == Ok(Partition(
        (map k | k in yes && SlotIn(yes, index, year, convert, k).Plotted? :: SlotIn(yes, index, year, convert, k).value),
        (set k | k in yes && SlotIn(yes, index, year, convert, k).NoDataThisYear?),
        no))
  }

  /** The results building the map for `year` may have: the reconciliation's KeyError, or a partition outcome. */
  ghost predicate Built<V>(catalog: Catalog, table: seq<Row>, year: Column, convert: Cell -> Option<V>,
                           r: Result<Partition<V>, Fault>)
  {
    match Reconciliation(catalog, table)
    case Err(e) => r == Err(e)
    case Ok(rec) => PartitionOutcome(rec.yes, rec.no, ByName(table), year, convert, r)
  }

  /** The name of every has-data code is a name of the table, so no such code is Unindexed. */
  lemma HasDataNamesIndexed(catalog: Catalog, table: seq<Row>)
    requires Reconciliation(catalog, table).Ok?
    ensures AllNamed(table)
    ensures forall k | k in Reconciliation(catalog, table).value.yes ::
              Reconciliation(catalog, table).value.yes[k] in ByName(table)
  {
    var rec := Reconciliation(catalog, table).value;
    ReconciledCodes(catalog, table);
    ByNameKeys(table);
    forall k | k in rec.yes ensures rec.yes[k] in Names(table) {
      var i :| 0 <= i < |table| && HasData(table[i]) && MatchedCode(catalog, table[i]) == Some(k);
    }
  }

  /** The state the loop of BuildMapDictByName ends in is a partition outcome. */
  lemma BuildLoopResult<V>(yes: map<Code, Name>, no: set<Code>, index: map<Name, Row>, year: Column,
                           convert: Cell -> Option<V>, gdp: map<Code, V>, noGdp: set<Code>)
    requires forall k | k in yes :: !SlotIn(yes, index, year, convert, k).Failed?
    requires forall k | k in gdp :: k in yes && SlotIn(yes, index, year, convert, k).Plotted? &&
                                    gdp[k] == SlotIn(yes, index, year, convert, k).value
    requires forall k | k in yes && SlotIn(yes, index, year, convert, k).Plotted? :: k in gdp
    requires forall k :: k in noGdp <==> k in yes && SlotIn(yes, index, year, convert, k).NoDataThisYear?
    ensures PartitionOutcome(yes, no, index, year, convert, Ok(Partition(gdp, noGdp, no)))
  {
    var spec := map k | k in yes && SlotIn(yes, index, year, convert, k).Plotted? :: SlotIn(yes, index, year, convert, k).value;
    assert spec == gdp by {
      assert spec.Keys == gdp.Keys;
    }
    assert noGdp == set k | k in yes && SlotIn(yes, index, year, convert, k).NoDataThisYear?;
    assert !exists k | k in yes :: SlotIn(yes, index, year, convert, k).Failed?;
  }

  /** The loop of lines 85-91 and the result of line 93. */
  method PartitionYear<V>(yes: map<Code, Name>, no: set<Code>, index: map<Name, Row>, year: Column,
                          convert: Cell -> Option<V>)
    returns (r: Result<Partition<V>, Fault>)
    ensures PartitionOutcome(yes, no, index, year, convert, r)
  {
    var gdp: map<Code, V> := map[];
    var noGdp: set<Code> := {};
    var todo := yes.Keys;
    ghost var done: set<Code> := {};
    while todo != {}
      invariant todo <= yes.Keys && done == yes.Keys - todo
      invariant forall k | k in done :: !SlotIn(yes, index, year, convert, k).Failed?
      invariant forall k | k in gdp :: k in done && SlotIn(yes, index, year, convert, k).Plotted? &&
                                       gdp[k] == SlotIn(yes, index, year, convert, k).value
      invariant forall k | k in done && SlotIn(yes, index, year, convert, k).Plotted? :: k in gdp
      invariant forall k | k in noGdp :: k in done && SlotIn(yes, index, year, convert, k).NoDataThisYear?
      invariant forall k | k in done && SlotIn(yes, index, year, convert, k).NoDataThisYear? :: k in noGdp
      decreases todo
    {
      var code :| code in todo;
      var country := yes[code];
      ghost var slot := SlotIn(yes, index, year, convert, code);
      if country in index {
        var yearGdp := Get(index[country], year);
        if yearGdp.None? {
          assert slot == Failed(KeyError(year));
          return Err(KeyError(year));
        }
        if yearGdp.value != "" {
          var value := convert(yearGdp.value);
          if value.None? {
            assert slot == Failed(ValueError);
            return Err(ValueError);
          }
          assert slot == Plotted(value.value);
          gdp := gdp[code := value.value];
        } else {
          assert slot == NoDataThisYear;
          noGdp := noGdp + {code};
        }
      } else {
        assert slot == Unindexed;
      }
      done := done + {code};
      todo := todo - {code};
    }
    BuildLoopResult(yes, no, index, year, convert, gdp, noGdp);
    r := Ok(Partition(gdp, noGdp, no));
  }

  /** Lines 77-93, with the table already loaded (line 74 is not part of the model). */
  method BuildMapDictByName<V>(catalog: Catalog, table: seq<Row>, year: Column, convert: Cell -> Option<V>)
    returns (r: Result<Partition<V>, Fault>)
    ensures Built(catalog, table, year, convert, r)
  {
    var reconciled := ReconcileCountriesByName(catalog, table);
    if reconciled.Err? {
      return Err(reconciled.error);
    }
    assert AllNamed(table);
    var index := IndexByName(table);
    r := PartitionYear(reconciled.value.yes, reconciled.value.no, index, year, convert);
  }

  /** Every row of the index is a row of the table. */
  lemma {:induction false} ByNameRowsFromTable(table: seq<Row>)
    requires AllNamed(table)
    ensures forall n | n in ByName(table) :: ByName(table)[n] in table
  {
    if table != [] {
      var n := |table| - 1;
      ByNameStep(table);
      ByNameRowsFromTable(table[..n]);
      forall name | name in ByName(table[..n]) ensures ByName(table[..n])[name] in table {
        assert ByName(table[..n])[name] in table[..n];
      }
    }
  }

  lemma OutcomeBuckets<V>(yes: map<Code, Name>, no: set<Code>, index: map<Name, Row>, year: Column,
                          convert: Cell -> Option<V>, p: Partition<V>)
    requires PartitionOutcome(yes, no, index, year, convert, Ok(p))
    requires forall k | k in yes :: yes[k] in index
    ensures p.gdp.Keys + p.noGdpThisYear == yes.Keys
    ensures p.gdp.Keys !! p.noGdpThisYear
    ensures p.missing == no
  {
    forall k | k in yes
      ensures SlotIn(yes, index, year, convert, k).Plotted? || SlotIn(yes, index, year, convert, k).NoDataThisYear?
    {
      assert !SlotIn(yes, index, year, convert, k).Failed?;
    }
  }

  /**
   Each code of the has-data dict lands in exactly one of the year's value
   mapping and its no-data-this-year set, nothing else lands in either, and the
   third component is the reconciliation's no-data set, unchanged.
   */
  lemma EveryHasDataCodeInOneBucket<V>(catalog: Catalog, table: seq<Row>, year: Column, convert: Cell -> Option<V>,
                                       p: Partition<V>)
    requires Built(catalog, table, year, convert, Ok(p))
    ensures Reconciliation(catalog, table).Ok?
    ensures p.gdp.Keys + p.noGdpThisYear == Reconciliation(catalog, table).value.yes.Keys
    ensures p.gdp.Keys !! p.noGdpThisYear
    ensures p.missing == Reconciliation(catalog, table).value.no
  {
    var rec := Reconciliation(catalog, table).value;
    HasDataNamesIndexed(catalog, table);
    OutcomeBuckets(rec.yes, rec.no, ByName(table), year, convert, p);
  }

  /**
   A has-data code is in the value mapping exactly when the cell of column
   `year` in its country's row is non-empty, and then it maps to that cell
   converted; it is in the no-data-this-year set exactly when the cell is empty.
   */
  lemma BucketFollowsYearCell<V>(catalog: Catalog, table: seq<Row>, year: Column, convert: Cell -> Option<V>,
                                 p: Partition<V>, code: Code)
    requires Built(catalog, table, year, convert, Ok(p))
    requires Reconciliation(catalog, table).Ok? && code in Reconciliation(catalog, table).value.yes
    ensures var name := Reconciliation(catalog, table).value.yes[code];
      && name in ByName(table)
      && var cell := Get(ByName(table)[name], year);
      && cell.Some?
      && (code in p.gdp <==> cell.value != "")
      && (code in p.gdp ==> convert(cell.value) == Some(p.gdp[code]))
      && (code in p.noGdpThisYear <==> cell.value == "")
  {
    var rec := Reconciliation(catalog, table).value;
    HasDataNamesIndexed(catalog, table);
    assert !SlotIn(rec.yes, ByName(table), year, convert, code).Failed?;
  }

  /**
   A has-data code whose country's row lacks the column `year` makes the build
   fail; if no row has that column, the build fails with KeyError of `year`
   (an absent column is not read as an empty cell).
   */
  lemma AbsentYearColumnFails<V>(catalog: Catalog, table: seq<Row>, year: Column, convert: Cell -> Option<V>,
                                 r: Result<Partition<V>, Fault>)
    requires Reconciliation(catalog, table).Ok? && Reconciliation(catalog, table).value.yes != map[]
    requires forall i | 0 <= i < |table| :: Get(table[i], year).None?
    requires Built(catalog, table, year, convert, r)
    ensures r == Err(KeyError(year))
  {
    var rec := Reconciliation(catalog, table).value;
    var index := ByName(table);
    HasDataNamesIndexed(catalog, table);
    ByNameRowsFromTable(table);
    forall k | k in rec.yes ensures SlotIn(rec.yes, index, year, convert, k) == Failed(KeyError(year)) {
      assert index[rec.yes[k]] in table;
    }
    var k :| k in rec.yes;
    assert SlotIn(rec.yes, index, year, convert, k).Failed?;
  }

  /** When row names are unique, the three collections are pairwise disjoint. */
  lemma PartitionPairwiseDisjoint<V>(catalog: Catalog, table: seq<Row>, year: Column, convert: Cell -> Option<V>,
                                     p: Partition<V>)
    requires UniqueNames(table)
    requires Built(catalog, table, year, convert, Ok(p))
    ensures p.gdp.Keys !! p.noGdpThisYear
    ensures p.gdp.Keys !! p.missing
    ensures p.noGdpThisYear !! p.missing
  {
    EveryHasDataCodeInOneBucket(catalog, table, year, convert, p);
    DisjointWhenNamesUnique(catalog, table);
  }

  /** All three collections hold catalog codes only. */
  lemma PartitionWithinCatalog<V>(catalog: Catalog, table: seq<Row>, year: Column, convert: Cell -> Option<V>,
                                  p: Partition<V>)
    requires Built(catalog, table, year, convert, Ok(p))
    ensures forall k | k in p.gdp.Keys + p.noGdpThisYear + p.missing :: Get(catalog, k).Some?
  {
    EveryHasDataCodeInOneBucket(catalog, table, year, convert, p);
    ReconciledCodes(catalog, table);
  }

  /**
   When row names are unique, the row read for a has-data code is the very
   row that put the code in the has-data dict.
   */
  lemma UniqueNamesReadMatchedRow(catalog: Catalog, table: seq<Row>, i: nat)
    requires UniqueNames(table)
    requires Reconciliation(catalog, table).Ok?
    requires i < |table| && HasData(table[i]) && MatchedCode(catalog, table[i]).Some?
    ensures var rec := Reconciliation(catalog, table).value;
      && MatchedCode(catalog, table[i]).value in rec.yes
      && rec.yes[MatchedCode(catalog, table[i]).value] in ByName(table)
      && ByName(table)[rec.yes[MatchedCode(catalog, table[i]).value]] == table[i]
  {
    var rec := Reconciliation(catalog, table).value;
    var code := MatchedCode(catalog, table[i]).value;
    ReconciledCodes(catalog, table);
    assert rec.yes[code] == RowName(table[i]).value;
    ByNameLastWins(table, i);
  }

  /** A catalog country whose name is the name of no row is in none of the three collections. */
  lemma UnmatchedCatalogCodeDropped<V>(catalog: Catalog, table: seq<Row>, year: Column, convert: Cell -> Option<V>,
                                       p: Partition<V>, j: nat)
    requires Built(catalog, table, year, convert, Ok(p))
    requires j < |catalog| && forall i | 0 <= i < |table| :: RowName(table[i]) != Some(catalog[j].1)
    ensures catalog[j].0 !in p.gdp && catalog[j].0 !in p.noGdpThisYear && catalog[j].0 !in p.missing
  {
    EveryHasDataCodeInOneBucket(catalog, table, year, convert, p);
    ReconciledCodes(catalog, table);
    GetEntry(catalog, j);
    forall i | 0 <= i < |table| ensures MatchedCode(catalog, table[i]) != Some(catalog[j].0) {
      if MatchedCode(catalog, table[i]) == Some(catalog[j].0) {
      }
    }
  }
}
