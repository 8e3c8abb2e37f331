/**
 * What `clean_dataset` guarantees when it is applied twice, and worked
 * instances that show how the loading code treats particular inputs.
 */
module Properties {
  import opened Wrappers
  import opened Frame
  import opened Interface
  import opened Cleaning

  // ---------------------------------------------------------------------
  // A frame each step leaves alone
  // ---------------------------------------------------------------------

  /** Complete `lat` and `lng` columns make every row complete on them. */
  lemma CanonicalComplete(n: Table)
    requires Wf(n) && "lat" in n.columns && "lng" in n.columns
    requires forall i | 0 <= i < |n.rows| :: CellAt(n, i, "lat").Some? && CellAt(n, i, "lng").Some?
    ensures forall row | row in n.rows :: Complete(n.columns, row, ["lat", "lng"])
  {
    forall row | row in n.rows
      ensures Complete(n.columns, row, ["lat", "lng"])
    {
      var i :| 0 <= i < |n.rows| && n.rows[i] == row;
      forall k | 0 <= k < |n.columns| && k < |row.cells| && n.columns[k] in ["lat", "lng"]
        ensures row.cells[k].Some?
      {
        IndexOfDistinct(n.columns, k);
        assert CellAt(n, i, n.columns[k]) == row.cells[k];
      }
    }
  }

  /** A frame with complete `lat` and `lng` columns, or without both coordinates, passes the coordinate step unchanged. */
  lemma LatLngSettled(n: Table)
    requires Wf(n)
    requires BothCoordinates(n.columns) ==>
      && "lat" in n.columns && "lng" in n.columns
      && forall i | 0 <= i < |n.rows| :: CellAt(n, i, "lat").Some? && CellAt(n, i, "lng").Some?
    ensures LatLngStep(n) == n
  {
    if BothCoordinates(n.columns) {
      assert LAT_CANDIDATES[..0] == [] && LNG_CANDIDATES[..0] == [];
      DetectColumnFindsFirst(n.columns, LAT_CANDIDATES, 0);
      DetectColumnFindsFirst(n.columns, LNG_CANDIDATES, 0);
      var subset := ["lat", "lng"];
      CanonicalComplete(n);
      DropNAOfComplete(n, subset);
      RenameIdentity(n, map["lat" := "lat", "lng" := "lng"]);
    }
  }

  /** A frame without date candidates passes the date step unchanged. */
  lemma DateSettled(n: Table, parse: string -> Option<Date>)
    requires Wf(n) && NoneIn(DATE_CANDIDATES, n.columns)
    ensures DateStep(n, parse) == n
  {
  }

  /** A frame with a `superficie` column, or without area candidates, passes the area step unchanged. */
  lemma AreaSettled(n: Table)
    requires Wf(n) && (NoneIn(AREA_CANDIDATES, n.columns) || "superficie" in n.columns)
    ensures AreaStep(n) == n
  {
    if "superficie" in n.columns {
      assert AREA_CANDIDATES[..0] == [];
      DetectColumnFindsFirst(n.columns, AREA_CANDIDATES, 0);
      RenameIdentity(n, map["superficie" := "superficie"]);
    }
  }

  /** A frame with a `causa` column passes the cause step unchanged. */
  lemma CauseSettled(n: Table)
    requires Wf(n) && "causa" in n.columns
    ensures CauseStep(n) == n
  {
    assert CAUSE_CANDIDATES[..0] == [];
    DetectColumnFindsFirst(n.columns, CAUSE_CANDIDATES, 0);
    RenameIdentity(n, map["causa" := "causa"]);
  }

  // ---------------------------------------------------------------------
  // The normalised frame is settled
  // ---------------------------------------------------------------------

  /** At most one of the date candidates is a column. */
  predicate AtMostOneDate(columns: seq<ColumnName>) {
    forall a, b | a in DATE_CANDIDATES && b in DATE_CANDIDATES && a in columns && b in columns :: a == b
  }

  /** Without both coordinates, the normalised frame still lacks them. */
  lemma NoCoordinatesStay(t: Table, parse: string -> Option<Date>)
    requires Wf(t) && !BothCoordinates(t.columns)
    ensures !BothCoordinates(Normalized(t, parse).columns)
  {
    var n := Normalized(t, parse);
    CandidatesDisjoint();
    LatLngStepSpec(t);
    DateUntouched(t, parse);
    AreaUntouched(AfterDate(t, parse));
    CauseUntouched(AfterArea(t, parse));
    assert SameMembership(t.columns, n.columns, LAT_CANDIDATES);
    assert SameMembership(t.columns, n.columns, LNG_CANDIDATES);
    DetectColumnRespectsMembership(t.columns, n.columns, LAT_CANDIDATES);
    DetectColumnRespectsMembership(t.columns, n.columns, LNG_CANDIDATES);
  }

  /** Without an area candidate in the raw frame, the normalised frame has none either. */
  lemma NoAreaStays(t: Table, parse: string -> Option<Date>)
    requires Wf(t) && NoneIn(AREA_CANDIDATES, t.columns)
    ensures NoneIn(AREA_CANDIDATES, Normalized(t, parse).columns)
  {
    CandidatesDisjoint();
    AreaDetectedAlike(t, parse);
    AfterDateMembership(t, parse);
    assert AfterArea(t, parse) == AfterDate(t, parse);
    CauseUntouched(AfterArea(t, parse));
  }

  /** With at most one date candidate in the raw frame, none is left among the normalised columns. */
  lemma NoDateLeft(t: Table, parse: string -> Option<Date>)
    requires Wf(t) && AtMostOneDate(t.columns)
    ensures NoneIn(DATE_CANDIDATES, Normalized(t, parse).columns)
  {
    CandidatesDisjoint();
    LatLngMembership(t);
    DateDetectedAlike(t);
    DateStepSpec(LatLngStep(t), parse);
    AreaUntouched(AfterDate(t, parse));
    CauseUntouched(AfterArea(t, parse));
    var n := Normalized(t, parse);
    forall x | x in DATE_CANDIDATES
      ensures x !in n.columns
    {
      assert x in n.columns <==> x in AfterDate(t, parse).columns;
    }
  }

  /**
   * Normalising a normalised frame changes nothing, provided the raw
   * frame had at most one date candidate among its columns.
   */
  lemma NormalizedIdempotent(t: Table, parse: string -> Option<Date>)
    requires Wf(t) && AtMostOneDate(t.columns)
    ensures Normalized(Normalized(t, parse), parse) == Normalized(t, parse)
  {
    var n := Normalized(t, parse);
    if BothCoordinates(t.columns) {
      NormalizedCoordinates(t, parse);
    } else {
      NoCoordinatesStay(t, parse);
    }
    LatLngSettled(n);
    NoDateLeft(t, parse);
    DateSettled(n, parse);
    if DetectColumn(t.columns, AREA_CANDIDATES).Some? {
      NormalizedArea(t, parse);
    } else {
      NoAreaStays(t, parse);
    }
    AreaSettled(n);
    NormalizedCause(t, parse);
    CauseSettled(n);
  }

  /**
   * The index a normalised frame ends up with, when a date column is
   * found: a narrow view of `NormalizedDateFound` for the proofs below.
   */
  lemma IndexedByDetectedDate(t: Table, parse: string -> Option<Date>)
    requires Wf(t) && DetectColumn(t.columns, DATE_CANDIDATES).Some?
    ensures Normalized(t, parse).indexName == DetectColumn(t.columns, DATE_CANDIDATES)
    ensures DetectColumn(t.columns, DATE_CANDIDATES).value !in Normalized(t, parse).columns
  {
    NormalizedDateFound(t, parse);
  }

  /** Without `fecha`, a `date` column is the date column found. */
  lemma DateDetectedSecond(columns: seq<ColumnName>)
    requires "fecha" !in columns && "date" in columns
    ensures DetectColumn(columns, DATE_CANDIDATES) == Some("date")
  {
    assert DATE_CANDIDATES[..1] == ["fecha"];
    DetectColumnFindsFirst(columns, DATE_CANDIDATES, 1);
  }

  /** Two date candidates among the columns break the proviso of `NormalizedIdempotent`. */
  lemma TwoDatesBreakProviso(columns: seq<ColumnName>)
    requires columns == ["fecha", "date"]
    ensures !AtMostOneDate(columns)
  {
    assert columns[0] in DATE_CANDIDATES && columns[1] in DATE_CANDIDATES;
  }

  /** With `fecha` and `date` as its columns, the first pass indexes by `fecha` and leaves `date` a column. */
  lemma TwoDatesFirstPass(t: Table, parse: string -> Option<Date>)
    requires Wf(t) && t.columns == ["fecha", "date"]
    ensures Normalized(t, parse).indexName == Some("fecha")
    ensures "fecha" !in Normalized(t, parse).columns
    ensures "date" in Normalized(t, parse).columns
  {
    assert DATE_CANDIDATES[..0] == [];
    DetectColumnFindsFirst(t.columns, DATE_CANDIDATES, 0);
    IndexedByDetectedDate(t, parse);
    TwoDatesNoCoordinates(t);
    DateStepSpec(t, parse);
    CandidatesDisjoint();
    AreaUntouched(AfterDate(t, parse));
    CauseUntouched(AfterArea(t, parse));
  }

  /** With `fecha` and `date` as its columns, the first pass keeps every row and `date`'s cells. */
  lemma TwoDatesKeepsDate(t: Table, parse: string -> Option<Date>)
    requires Wf(t) && t.columns == ["fecha", "date"]
    ensures "date" in Normalized(t, parse).columns && |Normalized(t, parse).rows| == |t.rows|
    ensures forall i | 0 <= i < |t.rows| :: CellAt(Normalized(t, parse), i, "date") == CellAt(t, i, "date")
  {
    TwoDatesNoCoordinates(t);
    assert DATE_CANDIDATES[..0] == [];
    DetectColumnFindsFirst(t.columns, DATE_CANDIDATES, 0);
    DateStepSpec(t, parse);
    assert AfterDate(t, parse) == DateStep(t, parse);
    CandidatesDisjoint();
    AreaUntouched(AfterDate(t, parse));
    CauseUntouched(AfterArea(t, parse));
    UntouchedTwice(t, AfterDate(t, parse), AfterArea(t, parse), "date");
    UntouchedTwice(t, AfterArea(t, parse), Normalized(t, parse), "date");
  }

  /** Neither `fecha` nor `date` is a coordinate, so the coordinate step leaves such a frame alone. */
  lemma TwoDatesNoCoordinates(t: Table)
    requires Wf(t) && t.columns == ["fecha", "date"]
    ensures LatLngStep(t) == t
  {
    CandidatesDisjoint();
    assert NoneIn(LAT_CANDIDATES, t.columns);
  }

  /**
   * Without the proviso idempotence fails: with both `fecha` and `date`
   * as columns, the first pass indexes by `fecha` and the second by
   * `date`.
   */
  lemma TwoDatesNotIdempotent(t: Table, parse: string -> Option<Date>)
    requires Wf(t) && t.columns == ["fecha", "date"]
    ensures !AtMostOneDate(t.columns)
    ensures Normalized(t, parse).indexName == Some("fecha")
    ensures Normalized(Normalized(t, parse), parse).indexName == Some("date")
  {
    TwoDatesBreakProviso(t.columns);
    var n := Normalized(t, parse);
    TwoDatesFirstPass(t, parse);
    DateDetectedSecond(n.columns);
    IndexedByDetectedDate(n, parse);
  }

  // ---------------------------------------------------------------------
  // Worked instances
  // ---------------------------------------------------------------------

  /** The header `Latitud,Longitud,Fecha,ha` of the example rows. */
  function CapitalisedHeader(rows: seq<Row>): (t: Table)
    requires forall i | 0 <= i < |rows| :: |rows[i].cells| == 4
    ensures Wf(t) && t.rows == rows
  {
    Table(["Latitud", "Longitud", "Fecha", "ha"], None, rows)
  }

  // Which names of that header the detection recognises: matching is
  // exact and case-sensitive.

  lemma CapitalisedDateDetected(rows: seq<Row>)
    requires forall i | 0 <= i < |rows| :: |rows[i].cells| == 4
    ensures DetectColumn(CapitalisedHeader(rows).columns, DATE_CANDIDATES) == Some("Fecha")
  {
    assert DATE_CANDIDATES[..2] == ["fecha", "date"];
    DetectColumnFindsFirst(CapitalisedHeader(rows).columns, DATE_CANDIDATES, 2);
  }

  lemma CapitalisedAreaDetected(rows: seq<Row>)
    requires forall i | 0 <= i < |rows| :: |rows[i].cells| == 4
    ensures DetectColumn(CapitalisedHeader(rows).columns, AREA_CANDIDATES) == Some("ha")
  {
    assert AREA_CANDIDATES[..1] == ["superficie"];
    DetectColumnFindsFirst(CapitalisedHeader(rows).columns, AREA_CANDIDATES, 1);
  }

  lemma CapitalisedNoCoordinates(rows: seq<Row>)
    requires forall i | 0 <= i < |rows| :: |rows[i].cells| == 4
    ensures NoneIn(LAT_CANDIDATES, CapitalisedHeader(rows).columns)
    ensures NoneIn(LNG_CANDIDATES, CapitalisedHeader(rows).columns)
  {
  }

  lemma LatitudIsNoCandidate(rows: seq<Row>)
    requires forall i | 0 <= i < |rows| :: |rows[i].cells| == 4
    ensures "Latitud" !in LAT_CANDIDATES && "Latitud" !in LNG_CANDIDATES
    ensures "Latitud" !in DATE_CANDIDATES && "Latitud" !in AREA_CANDIDATES && "Latitud" !in CAUSE_CANDIDATES
    ensures "lat" !in CapitalisedHeader(rows).columns
  {
  }

  /**
   * From a header `Latitud,Longitud,Fecha,ha` no coordinate column is
   * recognised, so no row is dropped.
   */
  lemma CapitalisedRowsExample(rows: seq<Row>, parse: string -> Option<Date>)
    requires forall i | 0 <= i < |rows| :: |rows[i].cells| == 4
    ensures !BothCoordinates(CapitalisedHeader(rows).columns)
    ensures |Normalized(CapitalisedHeader(rows), parse).rows| == |rows|
  {
    CapitalisedNoCoordinates(rows);
    NormalizedRows(CapitalisedHeader(rows), parse);
  }

  /** From the same header the coordinate columns keep their names: nothing becomes `lat`. */
  lemma CapitalisedNamesExample(rows: seq<Row>, parse: string -> Option<Date>)
    requires forall i | 0 <= i < |rows| :: |rows[i].cells| == 4
    ensures "Latitud" in Normalized(CapitalisedHeader(rows), parse).columns
    ensures "lat" !in Normalized(CapitalisedHeader(rows), parse).columns
  {
    var t := CapitalisedHeader(rows);
    CapitalisedNoCoordinates(rows);
    LatitudIsNoCandidate(rows);
    CandidatesDisjoint();
    LatLngStepSpec(t);
    CarriedToArea(t, parse, "Latitud");
    CarriedToArea(t, parse, "lat");
    CauseUntouched(AfterArea(t, parse));
  }

  /** The same header's `Fecha` becomes the index and its `ha` becomes `superficie`. */
  lemma CapitalisedDateAreaExample(rows: seq<Row>, parse: string -> Option<Date>)
    requires forall i | 0 <= i < |rows| :: |rows[i].cells| == 4
    ensures Normalized(CapitalisedHeader(rows), parse).indexName == Some("Fecha")
    ensures "superficie" in Normalized(CapitalisedHeader(rows), parse).columns
  {
    CapitalisedDateDetected(rows);
    NormalizedDateFound(CapitalisedHeader(rows), parse);
    CapitalisedAreaDetected(rows);
    NormalizedArea(CapitalisedHeader(rows), parse);
  }

  /** The same header has no cause column, so every row's cause is `Desconocida`. */
  lemma CapitalisedCauseExample(rows: seq<Row>, parse: string -> Option<Date>)
    requires forall i | 0 <= i < |rows| :: |rows[i].cells| == 4
    ensures "causa" in Normalized(CapitalisedHeader(rows), parse).columns
    ensures forall i | 0 <= i < |Normalized(CapitalisedHeader(rows), parse).rows| ::
      CellAt(Normalized(CapitalisedHeader(rows), parse), i, "causa") == Some(Text(UNKNOWN_CAUSE))
  {
    assert NoneIn(CAUSE_CANDIDATES, CapitalisedHeader(rows).columns);
    NormalizedCause(CapitalisedHeader(rows), parse);
  }

  /**
   * Every archive entry is considered, metadata folders included: the
   * macOS resource fork listed first is the entry chosen.
   */
  lemma MetadataEntryChosenExample()
    ensures SelectCsvName(["__MACOSX/._incendios.csv", "incendios.csv"]) == Success("__MACOSX/._incendios.csv")
    ensures SelectCsvName(["LEEME.txt"]) == Failure(NoCsvEntry)
  {
    var names := ["__MACOSX/._incendios.csv", "incendios.csv"];
    assert EndsWith(names[0], ".csv");
    SelectCsvNameFindsFirst(names, 0);
    assert !EndsWith("LEEME.txt", ".csv");
  }
}
