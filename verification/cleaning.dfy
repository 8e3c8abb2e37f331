/**
 * `clean_dataset`: normalises a frame read from the incident CSV to the
 * canonical columns `lat`, `lng`, `superficie` and `causa`, with the date
 * column, when there is one, moved into the index.
 *
 * The source rebinds one frame through a fixed sequence of steps. Each
 * step is a function here with a lemma stating what it does;
 * `Normalized` composes them, the lemmas after it state what the whole
 * normalisation guarantees, and `CleanDataset` is the step-by-step
 * method, proved to compute `Normalized`.
 */
module Cleaning {
  import opened Wrappers
  import opened Frame
  import opened Interface

  // ---------------------------------------------------------------------
  // Candidate names, in priority order. Each list starts with the
  // canonical name the column is renamed to.
  // ---------------------------------------------------------------------

  const LAT_CANDIDATES: seq<ColumnName> := ["lat", "latitude", "latitud"]
  const LNG_CANDIDATES: seq<ColumnName> := ["lng", "long", "longitude", "longitud"]
  const DATE_CANDIDATES: seq<ColumnName> := ["fecha", "date", "Fecha", "FECHA"]
  const AREA_CANDIDATES: seq<ColumnName> := ["superficie", "ha", "hectareas"]
  const CAUSE_CANDIDATES: seq<ColumnName> := ["causa", "idcausa", "causa_desc"]

  /** The cause given to every row when no cause column is found. */
  const UNKNOWN_CAUSE: string := "Desconocida"


  // ---------------------------------------------------------------------
  // clean_dataset, one step at a time
  // ---------------------------------------------------------------------

  /**
   * Latitude and longitude: when both are found, rows missing either are
   * dropped and the two columns are renamed `lat` and `lng`; when only one
   * or neither is found, the frame is left as it is.
   */
  function LatLngStep(t: Table): (r: Table)
    requires Wf(t)
    ensures r.indexName == t.indexName && IsSubsequence(r.rows, t.rows)
  {
    var latCol := DetectColumn(t.columns, LAT_CANDIDATES);
    var lngCol := DetectColumn(t.columns, LNG_CANDIDATES);
    if latCol.Some? && lngCol.Some? then
      Rename(DropNA(t, [latCol.value, lngCol.value]), map[latCol.value := "lat", lngCol.value := "lng"])
    else
      SubsequenceReflexive(t.rows);
      t
  }

  /**
   * Date: when a date column is found, its cells are coerced to dates
   * (unreadable ones become missing) and the column becomes the index.
   */
  function DateStep(t: Table, parse: string -> Option<Date>): (r: Table)
    requires Wf(t)
    ensures |r.rows| == |t.rows|
    ensures r.indexName == if DetectColumn(t.columns, DATE_CANDIDATES).Some? then DetectColumn(t.columns, DATE_CANDIDATES) else t.indexName
  {
    match DetectColumn(t.columns, DATE_CANDIDATES)
    case None => t
    case Some(c) =>
      AssignWf(t, c, ToDatetime(Column(t, c), parse));
      SetIndex(Assign(t, c, ToDatetime(Column(t, c), parse)), c)
  }

  /** Burned area: the column found is renamed `superficie`. */
  function AreaStep(t: Table): (r: Table)
    requires Wf(t)
    ensures r.rows == t.rows && r.indexName == t.indexName && |r.columns| == |t.columns|
  {
    match DetectColumn(t.columns, AREA_CANDIDATES)
    case None => t
    case Some(c) => Rename(t, map[c := "superficie"])
  }

  /** Cause: the column found is renamed `causa`; without one, a constant `causa` column is added. */
  function CauseStep(t: Table): (r: Table)
    requires Wf(t)
    ensures |r.rows| == |t.rows| && r.indexName == t.indexName
    ensures "causa" in r.columns
  {
    match DetectColumn(t.columns, CAUSE_CANDIDATES)
    case None => Assign(t, "causa", seq(|t.rows|, _ => Some(Text(UNKNOWN_CAUSE))))
    case Some(c) => Rename(t, map[c := "causa"])
  }

  // ---------------------------------------------------------------------
  // What each step does
  // ---------------------------------------------------------------------

  /** Column `n` is a column of `r` exactly when it is one of `t`, with the same cells. */
  predicate Untouched(t: Table, r: Table, n: ColumnName)
    requires Wf(t) && Wf(r)
  {
    (n in r.columns <==> n in t.columns) && Keeps(t, r, n)
  }

  /** Both a latitude and a longitude column are found. */
  predicate BothCoordinates(columns: seq<ColumnName>) {
    DetectColumn(columns, LAT_CANDIDATES).Some? && DetectColumn(columns, LNG_CANDIDATES).Some?
  }

  /**
   * The frame the coordinate step renames: the rows missing either
   * detected coordinate are dropped, nothing else changes.
   */
  function CompleteCoordinates(t: Table): (r: Table)
    requires Wf(t) && BothCoordinates(t.columns)
    ensures Wf(r) && r.columns == t.columns && r.indexName == t.indexName
  {
    var subset := [DetectColumn(t.columns, LAT_CANDIDATES).value, DetectColumn(t.columns, LNG_CANDIDATES).value];
    DropNAWf(t, subset);
    DropNA(t, subset)
  }

  /**
   * Each list starts with its canonical name, so the column detected is
   * either that name or the name is not a column at all: renaming the
   * detected column to the canonical name never duplicates a label.
   */
  lemma CanonicalFirst(columns: seq<ColumnName>, candidates: seq<ColumnName>)
    requires candidates != [] && DetectColumn(columns, candidates).Some?
    ensures DetectColumn(columns, candidates).value == candidates[0] || candidates[0] !in columns
  {
    var k :| 0 <= k < |candidates| && candidates[k] == DetectColumn(columns, candidates).value
      && NoneIn(candidates[..k], columns);
    if k > 0 {
      assert candidates[0] in candidates[..k];
    }
  }

  /**
   * interface.py lines 34-39: with both coordinates found, the rows kept are those with
   * both values present, in their original order, and the columns are
   * named `lat` and `lng`; with only one or neither found, nothing changes.
   * No other candidate name gains or loses its column.
   */
  lemma LatLngStepSpec(t: Table)
    requires Wf(t)
    ensures Wf(LatLngStep(t)) && LatLngStep(t).indexName == t.indexName
    ensures IsSubsequence(LatLngStep(t).rows, t.rows)
    ensures forall n | n !in LAT_CANDIDATES && n !in LNG_CANDIDATES :: (n in LatLngStep(t).columns <==> n in t.columns)
    ensures BothCoordinates(t.columns) ==>
      && "lat" in LatLngStep(t).columns && "lng" in LatLngStep(t).columns
      && forall i | 0 <= i < |LatLngStep(t).rows| ::
           CellAt(LatLngStep(t), i, "lat").Some? && CellAt(LatLngStep(t), i, "lng").Some?
    ensures BothCoordinates(t.columns) ==>
      var subset := [DetectColumn(t.columns, LAT_CANDIDATES).value, DetectColumn(t.columns, LNG_CANDIDATES).value];
      forall row | row in t.rows && Complete(t.columns, row, subset) :: row in LatLngStep(t).rows
    ensures BothCoordinates(t.columns) ==>
      var latCol := DetectColumn(t.columns, LAT_CANDIDATES).value;
      var lngCol := DetectColumn(t.columns, LNG_CANDIDATES).value;
      && LatLngStep(t).rows == CompleteCoordinates(t).rows
      && (forall i | 0 <= i < |LatLngStep(t).rows| ::
            && CellAt(LatLngStep(t), i, "lat") == CellAt(CompleteCoordinates(t), i, latCol)
            && CellAt(LatLngStep(t), i, "lng") == CellAt(CompleteCoordinates(t), i, lngCol))
      && (latCol != "lat" ==> latCol !in LatLngStep(t).columns)
      && (lngCol != "lng" ==> lngCol !in LatLngStep(t).columns)
      && forall n | n != latCol && n != lngCol && n != "lat" && n != "lng" ::
           Untouched(CompleteCoordinates(t), LatLngStep(t), n)
    ensures !BothCoordinates(t.columns) ==> LatLngStep(t) == t
  {
    if BothCoordinates(t.columns) {
      CoordinatesRenamed(t);
      CoordinatesMoved(t);
      CoordinatesKeepOthers(t);
    } else {
      SubsequenceReflexive(t.rows);
    }
  }

  /** Renaming the detected coordinate columns to `lat` and `lng` cannot duplicate a label. */
  lemma CoordinateRenameSafe(columns: seq<ColumnName>)
    requires BothCoordinates(columns)
    ensures var latCol := DetectColumn(columns, LAT_CANDIDATES).value;
      var lngCol := DetectColumn(columns, LNG_CANDIDATES).value;
      latCol != lngCol && SafeRename(columns, map[latCol := "lat", lngCol := "lng"])
  {
    var latCol := DetectColumn(columns, LAT_CANDIDATES).value;
    var lngCol := DetectColumn(columns, LNG_CANDIDATES).value;
    CanonicalFirst(columns, LAT_CANDIDATES);
    CanonicalFirst(columns, LNG_CANDIDATES);
    CoordinateListsDisjoint();
    assert latCol in LAT_CANDIDATES && lngCol in LNG_CANDIDATES;
    SafePairRename(columns, latCol, lngCol, "lat", "lng");
  }

  /** No name is both a latitude and a longitude candidate. */
  lemma CoordinateListsDisjoint()
    ensures forall n | n in LAT_CANDIDATES :: n !in LNG_CANDIDATES
    ensures "lat" !in LNG_CANDIDATES && "lng" !in LAT_CANDIDATES
  {
  }


  /** The renaming half of `LatLngStepSpec`, when both coordinates are found. */
  lemma CoordinatesRenamed(t: Table)
    requires Wf(t) && BothCoordinates(t.columns)
    ensures Wf(LatLngStep(t))
    ensures forall n | n !in LAT_CANDIDATES && n !in LNG_CANDIDATES :: (n in LatLngStep(t).columns <==> n in t.columns)
    ensures "lat" in LatLngStep(t).columns && "lng" in LatLngStep(t).columns
    ensures forall i | 0 <= i < |LatLngStep(t).rows| ::
      CellAt(LatLngStep(t), i, "lat").Some? && CellAt(LatLngStep(t), i, "lng").Some?
  {
    var latCol := DetectColumn(t.columns, LAT_CANDIDATES).value;
    var lngCol := DetectColumn(t.columns, LNG_CANDIDATES).value;
    var subset := [latCol, lngCol];
    var d := DropNA(t, subset);
    var m := map[latCol := "lat", lngCol := "lng"];
    CoordinateRenameSafe(t.columns);
    DropNAWf(t, subset);
    RenameMoves(d, m, latCol);
    RenameMoves(d, m, lngCol);
    forall n | n !in LAT_CANDIDATES && n !in LNG_CANDIDATES
      ensures n in LatLngStep(t).columns <==> n in t.columns
    {
      RenameKeepsOthers(d, m, n);
    }
  }
  /**
   * `lat` and `lng` hold, row by row, the detected latitude and longitude
   * of the rows kept, and a detected name that is not canonical is gone.
   */
  lemma CoordinatesMoved(t: Table)
    requires Wf(t) && BothCoordinates(t.columns)
    ensures Wf(LatLngStep(t)) && LatLngStep(t).rows == CompleteCoordinates(t).rows
    ensures "lat" in LatLngStep(t).columns && "lng" in LatLngStep(t).columns
    ensures forall i | 0 <= i < |LatLngStep(t).rows| ::
      && CellAt(LatLngStep(t), i, "lat") == CellAt(CompleteCoordinates(t), i, DetectColumn(t.columns, LAT_CANDIDATES).value)
      && CellAt(LatLngStep(t), i, "lng") == CellAt(CompleteCoordinates(t), i, DetectColumn(t.columns, LNG_CANDIDATES).value)
    ensures DetectColumn(t.columns, LAT_CANDIDATES).value != "lat" ==>
      DetectColumn(t.columns, LAT_CANDIDATES).value !in LatLngStep(t).columns
    ensures DetectColumn(t.columns, LNG_CANDIDATES).value != "lng" ==>
      DetectColumn(t.columns, LNG_CANDIDATES).value !in LatLngStep(t).columns
  {
    var latCol := DetectColumn(t.columns, LAT_CANDIDATES).value;
    var lngCol := DetectColumn(t.columns, LNG_CANDIDATES).value;
    var d := CompleteCoordinates(t);
    var m := map[latCol := "lat", lngCol := "lng"];
    CoordinateRenameSafe(t.columns);
    CoordinateListsDisjoint();
    assert latCol in LAT_CANDIDATES && lngCol in LNG_CANDIDATES;
    assert LatLngStep(t) == Rename(d, m);
    RenameMoves(d, m, latCol);
    RenameMoves(d, m, lngCol);
    if latCol != "lat" {
      RenameRemoves(d, m, latCol);
    }
    if lngCol != "lng" {
      RenameRemoves(d, m, lngCol);
    }
  }

  /** Every column other than the two detected and the two canonical names is untouched on the rows kept. */
  lemma CoordinatesKeepOthers(t: Table)
    requires Wf(t) && BothCoordinates(t.columns)
    ensures Wf(LatLngStep(t))
    ensures forall n | n != DetectColumn(t.columns, LAT_CANDIDATES).value && n != DetectColumn(t.columns, LNG_CANDIDATES).value
                     && n != "lat" && n != "lng" ::
      Untouched(CompleteCoordinates(t), LatLngStep(t), n)
  {
    CoordinatesMoved(t);
    forall n | n != DetectColumn(t.columns, LAT_CANDIDATES).value && n != DetectColumn(t.columns, LNG_CANDIDATES).value
               && n != "lat" && n != "lng"
      ensures Untouched(CompleteCoordinates(t), LatLngStep(t), n)
    {
      CoordinatesKeepOther(t, n);
    }
  }

  lemma CoordinatesKeepOther(t: Table, n: ColumnName)
    requires Wf(t) && BothCoordinates(t.columns)
    requires n != DetectColumn(t.columns, LAT_CANDIDATES).value && n != DetectColumn(t.columns, LNG_CANDIDATES).value
    requires n != "lat" && n != "lng"
    ensures Wf(LatLngStep(t)) && Untouched(CompleteCoordinates(t), LatLngStep(t), n)
  {
    var latCol := DetectColumn(t.columns, LAT_CANDIDATES).value;
    var lngCol := DetectColumn(t.columns, LNG_CANDIDATES).value;
    var d := CompleteCoordinates(t);
    var m := map[latCol := "lat", lngCol := "lng"];
    LatLngStepIsRename(t);
    assert n !in m && forall k | k in m :: m[k] != n;
    RenameKeepsOthers(d, m, n);
  }

  /** With both coordinates found, the step is a safe renaming of the complete rows. */
  lemma LatLngStepIsRename(t: Table)
    requires Wf(t) && BothCoordinates(t.columns)
    ensures var m := map[DetectColumn(t.columns, LAT_CANDIDATES).value := "lat", DetectColumn(t.columns, LNG_CANDIDATES).value := "lng"];
      && SafeRename(CompleteCoordinates(t).columns, m)
      && LatLngStep(t) == Rename(CompleteCoordinates(t), m)
  {
    CoordinateRenameSafe(t.columns);
  }


  /**
   * interface.py lines 42-45: with a date column found, its cells are coerced to dates
   * and become the row labels, the column leaves the columns, and no row
   * is dropped; every other column, another date candidate included, is
   * untouched.
   */
  lemma DateStepSpec(t: Table, parse: string -> Option<Date>)
    requires Wf(t)
    ensures Wf(DateStep(t, parse)) && |DateStep(t, parse).rows| == |t.rows|
    ensures forall n | n !in DATE_CANDIDATES :: Untouched(t, DateStep(t, parse), n)
    ensures DetectColumn(t.columns, DATE_CANDIDATES).None? ==> DateStep(t, parse) == t
    ensures DetectColumn(t.columns, DATE_CANDIDATES).Some? ==>
      var c := DetectColumn(t.columns, DATE_CANDIDATES).value;
      && DateStep(t, parse).indexName == Some(c)
      && (forall n :: n in DateStep(t, parse).columns <==> n in t.columns && n != c)
      && (forall i | 0 <= i < |t.rows| ::
           DateStep(t, parse).rows[i].index == Key(CoerceDate(CellAt(t, i, c), parse)))
      && forall n | n != c :: Untouched(t, DateStep(t, parse), n)
  {
    match DetectColumn(t.columns, DATE_CANDIDATES)
    case None =>
    case Some(c) =>
      var v := ToDatetime(Column(t, c), parse);
      var a := Assign(t, c, v);
      AssignSpec(t, c, v);
      SetIndexSpec(a, c);
      var r := SetIndex(a, c);
      assert r == DateStep(t, parse);
      forall n | n != c
        ensures Untouched(t, r, n)
      {
        assert Keeps(t, a, n) && Keeps(a, r, n);
      }
      assert c in DATE_CANDIDATES;
  }

  /** interface.py lines 48-50: the burned-area column found is renamed `superficie`; nothing else changes. */
  lemma AreaStepSpec(t: Table)
    requires Wf(t)
    ensures Wf(AreaStep(t)) && AreaStep(t).rows == t.rows && AreaStep(t).indexName == t.indexName
    ensures forall n | n !in AREA_CANDIDATES :: Untouched(t, AreaStep(t), n)
    ensures DetectColumn(t.columns, AREA_CANDIDATES).None? ==> AreaStep(t) == t
    ensures DetectColumn(t.columns, AREA_CANDIDATES).Some? ==>
      && "superficie" in AreaStep(t).columns
      && forall i | 0 <= i < |t.rows| ::
           CellAt(AreaStep(t), i, "superficie") == CellAt(t, i, DetectColumn(t.columns, AREA_CANDIDATES).value)
    ensures DetectColumn(t.columns, AREA_CANDIDATES).Some? ==>
      var c := DetectColumn(t.columns, AREA_CANDIDATES).value;
      && (c != "superficie" ==> c !in AreaStep(t).columns)
      && forall n | n != c && n != "superficie" :: Untouched(t, AreaStep(t), n)
  {
    match DetectColumn(t.columns, AREA_CANDIDATES)
    case None =>
    case Some(c) =>
      var m := map[c := "superficie"];
      CanonicalFirst(t.columns, AREA_CANDIDATES);
      assert SafeRename(t.columns, m);
      RenameMoves(t, m, c);
      if c != "superficie" {
        RenameRemoves(t, m, c);
      }
      forall n | n != c && n != "superficie"
        ensures Untouched(t, AreaStep(t), n)
      {
        RenameKeepsOthers(t, m, n);
      }
      assert c in AREA_CANDIDATES && "superficie" in AREA_CANDIDATES;
  }

  /**
   * interface.py lines 53-57: afterwards a `causa` column always exists. It is the cause
   * column found, renamed, or, when there is none, a new last column
   * holding `Desconocida` in every row. No row is dropped or relabelled.
   */
  lemma CauseStepSpec(t: Table)
    requires Wf(t)
    ensures Wf(CauseStep(t)) && "causa" in CauseStep(t).columns
    ensures |CauseStep(t).rows| == |t.rows| && CauseStep(t).indexName == t.indexName
    ensures forall i | 0 <= i < |t.rows| :: CauseStep(t).rows[i].index == t.rows[i].index
    ensures forall n | n !in CAUSE_CANDIDATES :: Untouched(t, CauseStep(t), n)
    ensures DetectColumn(t.columns, CAUSE_CANDIDATES).None? ==>
      && CauseStep(t).columns == t.columns + ["causa"]
      && forall i | 0 <= i < |t.rows| :: CellAt(CauseStep(t), i, "causa") == Some(Text(UNKNOWN_CAUSE))
    ensures DetectColumn(t.columns, CAUSE_CANDIDATES).Some? ==>
      forall i | 0 <= i < |t.rows| ::
        CellAt(CauseStep(t), i, "causa") == CellAt(t, i, DetectColumn(t.columns, CAUSE_CANDIDATES).value)
    ensures DetectColumn(t.columns, CAUSE_CANDIDATES).Some? ==>
      var c := DetectColumn(t.columns, CAUSE_CANDIDATES).value;
      && (c != "causa" ==> c !in CauseStep(t).columns)
      && forall n | n != c && n != "causa" :: Untouched(t, CauseStep(t), n)
  {
    match DetectColumn(t.columns, CAUSE_CANDIDATES)
    case None =>
      var v := seq(|t.rows|, _ => Some(Text(UNKNOWN_CAUSE)));
      AssignSpec(t, "causa", v);
      forall n | n !in CAUSE_CANDIDATES
        ensures Untouched(t, CauseStep(t), n)
      {
        assert n != "causa";
      }
    case Some(c) =>
      var m := map[c := "causa"];
      CanonicalFirst(t.columns, CAUSE_CANDIDATES);
      assert SafeRename(t.columns, m);
      RenameMoves(t, m, c);
      if c != "causa" {
        RenameRemoves(t, m, c);
      }
      forall n | n != c && n != "causa"
        ensures Untouched(t, CauseStep(t), n)
      {
        RenameKeepsOthers(t, m, n);
      }
      assert c in CAUSE_CANDIDATES && "causa" in CAUSE_CANDIDATES;
  }

  // ---------------------------------------------------------------------
  // The whole normalisation
  // ---------------------------------------------------------------------

  // Each step keeps labels distinct and rows of the right width.

  lemma LatLngWf(t: Table)
    requires Wf(t)
    ensures Wf(LatLngStep(t))
  {
    LatLngStepSpec(t);
  }

  lemma DateWf(t: Table, parse: string -> Option<Date>)
    requires Wf(t)
    ensures Wf(DateStep(t, parse))
  {
    DateStepSpec(t, parse);
  }

  lemma AreaWf(t: Table)
    requires Wf(t)
    ensures Wf(AreaStep(t))
  {
    AreaStepSpec(t);
  }

  lemma CauseWf(t: Table)
    requires Wf(t)
    ensures Wf(CauseStep(t))
  {
    CauseStepSpec(t);
  }

  /** The frame after the coordinate and date steps. */
  function AfterDate(t: Table, parse: string -> Option<Date>): (r: Table)
    requires Wf(t)
    ensures Wf(r)
  {
    LatLngWf(t);
    DateWf(LatLngStep(t), parse);
    DateStep(LatLngStep(t), parse)
  }

  /** The frame after the coordinate, date and area steps. */
  function AfterArea(t: Table, parse: string -> Option<Date>): (r: Table)
    requires Wf(t)
    ensures Wf(r)
  {
    AreaWf(AfterDate(t, parse));
    AreaStep(AfterDate(t, parse))
  }

  /**
   * The frame `clean_dataset` returns: the four steps in source order.
   * Its labels stay distinct: no step ever renames a column onto a label
   * already in use.
   */
  function Normalized(t: Table, parse: string -> Option<Date>): (r: Table)
    requires Wf(t)
    ensures Wf(r)
  {
    CauseWf(AfterArea(t, parse));
    CauseStep(AfterArea(t, parse))
  }

  /** The five candidate lists share no name, and no canonical name is a candidate of a later step. */
  lemma CandidatesDisjoint()
    ensures forall n | n in DATE_CANDIDATES :: n !in LAT_CANDIDATES && n !in LNG_CANDIDATES
    ensures forall n | n in AREA_CANDIDATES :: n !in LAT_CANDIDATES && n !in LNG_CANDIDATES && n !in DATE_CANDIDATES
    ensures forall n | n in CAUSE_CANDIDATES ::
      n !in LAT_CANDIDATES && n !in LNG_CANDIDATES && n !in DATE_CANDIDATES && n !in AREA_CANDIDATES
    ensures "lat" !in DATE_CANDIDATES && "lat" !in AREA_CANDIDATES && "lat" !in CAUSE_CANDIDATES
    ensures "lng" !in DATE_CANDIDATES && "lng" !in AREA_CANDIDATES && "lng" !in CAUSE_CANDIDATES
    ensures "superficie" !in CAUSE_CANDIDATES
  {
  }

  /**
   * Each step finds the same column the raw frame would give it: the
   * steps before it only touch columns of other candidate lists.
   */
  lemma DateDetectedAlike(t: Table)
    requires Wf(t)
    ensures DetectColumn(LatLngStep(t).columns, DATE_CANDIDATES) == DetectColumn(t.columns, DATE_CANDIDATES)
  {
    CandidatesDisjoint();
    LatLngMembership(t);
    DetectColumnRespectsMembership(t.columns, LatLngStep(t).columns, DATE_CANDIDATES);
  }

  /** The area step sees the raw frame's area candidates. */
  lemma AreaDetectedAlike(t: Table, parse: string -> Option<Date>)
    requires Wf(t)
    ensures DetectColumn(AfterDate(t, parse).columns, AREA_CANDIDATES) == DetectColumn(t.columns, AREA_CANDIDATES)
  {
    AfterDateMembership(t, parse);
    DetectColumnRespectsMembership(t.columns, AfterDate(t, parse).columns, AREA_CANDIDATES);
  }

  /** The cause step sees the raw frame's cause candidates. */
  lemma CauseDetectedAlike(t: Table, parse: string -> Option<Date>)
    requires Wf(t)
    ensures DetectColumn(AfterArea(t, parse).columns, CAUSE_CANDIDATES) == DetectColumn(t.columns, CAUSE_CANDIDATES)
  {
    AfterAreaMembership(t, parse);
    DetectColumnRespectsMembership(t.columns, AfterArea(t, parse).columns, CAUSE_CANDIDATES);
  }

  // Narrow views of the step lemmas, so that each proof below sees only
  // the facts it needs.

  lemma LatLngMembership(t: Table)
    requires Wf(t)
    ensures Wf(LatLngStep(t))
    ensures forall n | n !in LAT_CANDIDATES && n !in LNG_CANDIDATES :: (n in LatLngStep(t).columns <==> n in t.columns)
  {
    LatLngStepSpec(t);
  }

  lemma DateUntouched(t: Table, parse: string -> Option<Date>)
    requires Wf(t)
    ensures Wf(DateStep(t, parse)) && |DateStep(t, parse).rows| == |t.rows|
    ensures forall n | n !in DATE_CANDIDATES :: Untouched(t, DateStep(t, parse), n)
  {
    DateStepSpec(t, parse);
  }

  lemma AreaUntouched(t: Table)
    requires Wf(t)
    ensures Wf(AreaStep(t)) && AreaStep(t).rows == t.rows
    ensures forall n | n !in AREA_CANDIDATES :: Untouched(t, AreaStep(t), n)
  {
    AreaStepSpec(t);
  }

  lemma CauseUntouched(t: Table)
    requires Wf(t)
    ensures Wf(CauseStep(t)) && |CauseStep(t).rows| == |t.rows|
    ensures forall n | n !in CAUSE_CANDIDATES :: Untouched(t, CauseStep(t), n)
  {
    CauseStepSpec(t);
  }

  lemma AfterDateMembership(t: Table, parse: string -> Option<Date>)
    requires Wf(t)
    ensures forall n | n in AREA_CANDIDATES :: (n in AfterDate(t, parse).columns <==> n in t.columns)
    ensures forall n | n in CAUSE_CANDIDATES :: (n in AfterDate(t, parse).columns <==> n in t.columns)
  {
    CandidatesDisjoint();
    LatLngMembership(t);
    DateUntouched(LatLngStep(t), parse);
  }

  lemma AfterAreaMembership(t: Table, parse: string -> Option<Date>)
    requires Wf(t)
    ensures forall n | n in CAUSE_CANDIDATES :: (n in AfterArea(t, parse).columns <==> n in t.columns)
  {
    CandidatesDisjoint();
    AfterDateMembership(t, parse);
    AreaUntouched(AfterDate(t, parse));
  }

  /** A column untouched by two consecutive steps is untouched by both. */
  lemma UntouchedTwice(a: Table, b: Table, c: Table, n: ColumnName)
    requires Wf(a) && Wf(b) && Wf(c)
    requires Untouched(a, b, n) && Untouched(b, c, n)
    ensures Untouched(a, c, n)
  {
  }

  /** A column no step after the first may touch comes through the date and area steps unchanged. */
  lemma CarriedToArea(t: Table, parse: string -> Option<Date>, n: ColumnName)
    requires Wf(t) && n !in DATE_CANDIDATES && n !in AREA_CANDIDATES
    ensures Wf(LatLngStep(t))
    ensures Untouched(LatLngStep(t), AfterArea(t, parse), n)
  {
    LatLngWf(t);
    DateUntouched(LatLngStep(t), parse);
    AreaUntouched(AfterDate(t, parse));
    UntouchedTwice(LatLngStep(t), AfterDate(t, parse), AfterArea(t, parse), n);
  }

  /** Every row count after the first step is the same. */
  lemma RowsAfterLatLng(t: Table, parse: string -> Option<Date>)
    requires Wf(t)
    ensures |AfterDate(t, parse).rows| == |LatLngStep(t).rows|
    ensures |AfterArea(t, parse).rows| == |LatLngStep(t).rows|
    ensures |Normalized(t, parse).rows| == |LatLngStep(t).rows|
  {
    LatLngWf(t);
    DateUntouched(LatLngStep(t), parse);
    AreaUntouched(AfterDate(t, parse));
    CauseUntouched(AfterArea(t, parse));
  }

  /**
   * The normalised frame always has a `causa` column. Without a cause
   * column in the raw frame every row's cause is `Desconocida`.
   */
  lemma NormalizedCause(t: Table, parse: string -> Option<Date>)
    requires Wf(t)
    ensures "causa" in Normalized(t, parse).columns
    ensures NoneIn(CAUSE_CANDIDATES, t.columns) ==>
      forall i | 0 <= i < |Normalized(t, parse).rows| ::
        CellAt(Normalized(t, parse), i, "causa") == Some(Text(UNKNOWN_CAUSE))
  {
    CauseDetectedAlike(t, parse);
    CauseStepSpec(AfterArea(t, parse));
  }

  /** With a cause column found, each row keeps under `causa` the cause it had under the detected name. */
  lemma NormalizedCauseFound(t: Table, parse: string -> Option<Date>)
    requires Wf(t) && DetectColumn(t.columns, CAUSE_CANDIDATES).Some?
    ensures Wf(LatLngStep(t))
    ensures DetectColumn(t.columns, CAUSE_CANDIDATES).value in LatLngStep(t).columns
    ensures forall i | 0 <= i < |Normalized(t, parse).rows| ::
      CellAt(Normalized(t, parse), i, "causa") == CellAt(LatLngStep(t), i, DetectColumn(t.columns, CAUSE_CANDIDATES).value)
  {
    var col := DetectColumn(t.columns, CAUSE_CANDIDATES).value;
    CandidatesDisjoint();
    assert col in CAUSE_CANDIDATES;
    LatLngMembership(t);
    CarriedToArea(t, parse, col);
    RowsAfterLatLng(t, parse);
    CauseDetectedAlike(t, parse);
    CauseStepSpec(AfterArea(t, parse));
  }

  /**
   * With both coordinates found, every row of the normalised frame has a
   * latitude under `lat` and a longitude under `lng`.
   */
  lemma NormalizedCoordinates(t: Table, parse: string -> Option<Date>)
    requires Wf(t) && BothCoordinates(t.columns)
    ensures "lat" in Normalized(t, parse).columns && "lng" in Normalized(t, parse).columns
    ensures forall i | 0 <= i < |Normalized(t, parse).rows| ::
      CellAt(Normalized(t, parse), i, "lat").Some? && CellAt(Normalized(t, parse), i, "lng").Some?
  {
    CandidatesDisjoint();
    CoordinatesRenamed(t);
    CarriedToArea(t, parse, "lat");
    CarriedToArea(t, parse, "lng");
    CauseUntouched(AfterArea(t, parse));
    UntouchedTwice(LatLngStep(t), AfterArea(t, parse), Normalized(t, parse), "lat");
    UntouchedTwice(LatLngStep(t), AfterArea(t, parse), Normalized(t, parse), "lng");
  }

  /**
   * With both coordinates found, the normalised frame has one row per raw
   * row that had both coordinates; its `lat` and `lng` hold, row by row,
   * the detected latitude and longitude, and a detected name that is not
   * canonical is no longer a column.
   */
  lemma NormalizedCoordinateValues(t: Table, parse: string -> Option<Date>)
    requires Wf(t) && BothCoordinates(t.columns)
    ensures |Normalized(t, parse).rows| == |CompleteCoordinates(t).rows|
    ensures "lat" in Normalized(t, parse).columns && "lng" in Normalized(t, parse).columns
    ensures forall i | 0 <= i < |Normalized(t, parse).rows| ::
      && CellAt(Normalized(t, parse), i, "lat") == CellAt(CompleteCoordinates(t), i, DetectColumn(t.columns, LAT_CANDIDATES).value)
      && CellAt(Normalized(t, parse), i, "lng") == CellAt(CompleteCoordinates(t), i, DetectColumn(t.columns, LNG_CANDIDATES).value)
    ensures DetectColumn(t.columns, LAT_CANDIDATES).value != "lat" ==>
      DetectColumn(t.columns, LAT_CANDIDATES).value !in Normalized(t, parse).columns
    ensures DetectColumn(t.columns, LNG_CANDIDATES).value != "lng" ==>
      DetectColumn(t.columns, LNG_CANDIDATES).value !in Normalized(t, parse).columns
  {
    var latCol := DetectColumn(t.columns, LAT_CANDIDATES).value;
    var lngCol := DetectColumn(t.columns, LNG_CANDIDATES).value;
    CandidatesDisjoint();
    assert latCol in LAT_CANDIDATES && lngCol in LNG_CANDIDATES;
    CoordinatesMoved(t);
    CarriedToEnd(t, parse, "lat");
    CarriedToEnd(t, parse, "lng");
    CarriedToEnd(t, parse, latCol);
    CarriedToEnd(t, parse, lngCol);
    var l, n, d := LatLngStep(t), Normalized(t, parse), CompleteCoordinates(t);
    forall i | 0 <= i < |n.rows|
      ensures CellAt(n, i, "lat") == CellAt(d, i, latCol) && CellAt(n, i, "lng") == CellAt(d, i, lngCol)
    {
      assert CellAt(n, i, "lat") == CellAt(l, i, "lat");
      assert CellAt(n, i, "lng") == CellAt(l, i, "lng");
    }
  }

  /** A column none of the last three steps may touch comes through them unchanged. */
  lemma CarriedToEnd(t: Table, parse: string -> Option<Date>, n: ColumnName)
    requires Wf(t) && n !in DATE_CANDIDATES && n !in AREA_CANDIDATES && n !in CAUSE_CANDIDATES
    ensures Wf(LatLngStep(t)) && Wf(Normalized(t, parse))
    ensures Untouched(LatLngStep(t), Normalized(t, parse), n)
  {
    CarriedToArea(t, parse, n);
    CauseUntouched(AfterArea(t, parse));
    UntouchedTwice(LatLngStep(t), AfterArea(t, parse), Normalized(t, parse), n);
  }

  /**
   * Rows are only removed, never added or reordered, and only by the
   * coordinate step: without both coordinates no row is dropped.
   */
  lemma NormalizedRows(t: Table, parse: string -> Option<Date>)
    requires Wf(t)
    ensures IsSubsequence(LatLngStep(t).rows, t.rows)
    ensures |Normalized(t, parse).rows| == |LatLngStep(t).rows| <= |t.rows|
    ensures !BothCoordinates(t.columns) ==> |Normalized(t, parse).rows| == |t.rows|
  {
    LatLngStepSpec(t);
    SubsequenceLength(LatLngStep(t).rows, t.rows);
    RowsAfterLatLng(t, parse);
  }

  /**
   * With a date column found in the raw frame, it is the index of the
   * result and no longer a column, and each row's label is its coerced
   * date.
   */
  lemma NormalizedDateFound(t: Table, parse: string -> Option<Date>)
    requires Wf(t) && DetectColumn(t.columns, DATE_CANDIDATES).Some?
    ensures Wf(LatLngStep(t))
    ensures Normalized(t, parse).indexName == DetectColumn(t.columns, DATE_CANDIDATES)
    ensures DetectColumn(t.columns, DATE_CANDIDATES).value !in Normalized(t, parse).columns
    ensures DetectColumn(t.columns, DATE_CANDIDATES).value in LatLngStep(t).columns
    ensures |Normalized(t, parse).rows| == |LatLngStep(t).rows|
    ensures forall i | 0 <= i < |Normalized(t, parse).rows| ::
      Normalized(t, parse).rows[i].index
        == Key(CoerceDate(CellAt(LatLngStep(t), i, DetectColumn(t.columns, DATE_CANDIDATES).value), parse))
  {
    var d := DetectColumn(t.columns, DATE_CANDIDATES).value;
    CandidatesDisjoint();
    assert d in DATE_CANDIDATES;
    LatLngMembership(t);
    DateDetectedAlike(t);
    DateStepSpec(LatLngStep(t), parse);
    RowsAfterLatLng(t, parse);
    AreaUntouched(AfterDate(t, parse));
    CauseUntouched(AfterArea(t, parse));
    UntouchedTwice(AfterDate(t, parse), AfterArea(t, parse), Normalized(t, parse), d);
    IndexLabelsKept(t, parse);
  }

  /** The steps after the date step keep the index and the row labels. */
  lemma IndexLabelsKept(t: Table, parse: string -> Option<Date>)
    requires Wf(t)
    ensures Normalized(t, parse).indexName == AfterDate(t, parse).indexName
    ensures |Normalized(t, parse).rows| == |AfterDate(t, parse).rows|
    ensures forall i | 0 <= i < |Normalized(t, parse).rows| ::
      Normalized(t, parse).rows[i].index == AfterDate(t, parse).rows[i].index
  {
    AreaStepSpec(AfterDate(t, parse));
    CauseStepSpec(AfterArea(t, parse));
  }

  /** Without a date column the index is the one the raw frame had. */
  lemma NormalizedDateAbsent(t: Table, parse: string -> Option<Date>)
    requires Wf(t) && DetectColumn(t.columns, DATE_CANDIDATES).None?
    ensures Normalized(t, parse).indexName == t.indexName
    ensures |Normalized(t, parse).rows| == |LatLngStep(t).rows|
    ensures forall i | 0 <= i < |Normalized(t, parse).rows| ::
      Normalized(t, parse).rows[i].index == LatLngStep(t).rows[i].index
  {
    LatLngStepSpec(t);
    DateDetectedAlike(t);
    DateStepSpec(LatLngStep(t), parse);
    IndexLabelsKept(t, parse);
  }

  /**
   * With a burned-area column found in the raw frame, the result has a
   * `superficie` column holding, row by row, that column's cells.
   */
  lemma NormalizedArea(t: Table, parse: string -> Option<Date>)
    requires Wf(t) && DetectColumn(t.columns, AREA_CANDIDATES).Some?
    ensures Wf(LatLngStep(t))
    ensures "superficie" in Normalized(t, parse).columns
    ensures DetectColumn(t.columns, AREA_CANDIDATES).value in LatLngStep(t).columns
    ensures forall i | 0 <= i < |Normalized(t, parse).rows| ::
      CellAt(Normalized(t, parse), i, "superficie") == CellAt(LatLngStep(t), i, DetectColumn(t.columns, AREA_CANDIDATES).value)
  {
    var s := DetectColumn(t.columns, AREA_CANDIDATES).value;
    CandidatesDisjoint();
    assert s in AREA_CANDIDATES;
    LatLngMembership(t);
    LatLngWf(t);
    DateUntouched(LatLngStep(t), parse);
    AreaDetectedAlike(t, parse);
    AreaStepSpec(AfterDate(t, parse));
    CauseUntouched(AfterArea(t, parse));
    RowsAfterLatLng(t, parse);
  }

  /** The headline properties of the normalised frame, gathered. */
  lemma NormalizedSummary(t: Table, parse: string -> Option<Date>)
    requires Wf(t)
    ensures Wf(Normalized(t, parse)) && "causa" in Normalized(t, parse).columns
    ensures NoneIn(CAUSE_CANDIDATES, t.columns) ==>
      forall i | 0 <= i < |Normalized(t, parse).rows| :: CellAt(Normalized(t, parse), i, "causa") == Some(Text(UNKNOWN_CAUSE))
    ensures |Normalized(t, parse).rows| <= |t.rows|
    ensures !BothCoordinates(t.columns) ==> |Normalized(t, parse).rows| == |t.rows|
    ensures BothCoordinates(t.columns) ==>
      && "lat" in Normalized(t, parse).columns && "lng" in Normalized(t, parse).columns
      && forall i | 0 <= i < |Normalized(t, parse).rows| ::
           CellAt(Normalized(t, parse), i, "lat").Some? && CellAt(Normalized(t, parse), i, "lng").Some?
    ensures BothCoordinates(t.columns) ==>
      && |Normalized(t, parse).rows| == |CompleteCoordinates(t).rows|
      && forall i | 0 <= i < |Normalized(t, parse).rows| ::
           && CellAt(Normalized(t, parse), i, "lat") == CellAt(CompleteCoordinates(t), i, DetectColumn(t.columns, LAT_CANDIDATES).value)
           && CellAt(Normalized(t, parse), i, "lng") == CellAt(CompleteCoordinates(t), i, DetectColumn(t.columns, LNG_CANDIDATES).value)
    ensures DetectColumn(t.columns, DATE_CANDIDATES).Some? ==>
      && Normalized(t, parse).indexName == DetectColumn(t.columns, DATE_CANDIDATES)
      && DetectColumn(t.columns, DATE_CANDIDATES).value !in Normalized(t, parse).columns
    ensures DetectColumn(t.columns, DATE_CANDIDATES).None? ==> Normalized(t, parse).indexName == t.indexName
  {
    NormalizedCause(t, parse);
    NormalizedRows(t, parse);
    if BothCoordinates(t.columns) {
      NormalizedCoordinates(t, parse);
      NormalizedCoordinateValues(t, parse);
    }
    if DetectColumn(t.columns, DATE_CANDIDATES).Some? {
      NormalizedDateFound(t, parse);
    } else {
      NormalizedDateAbsent(t, parse);
    }
  }

  // ---------------------------------------------------------------------
  // clean_dataset as the source writes it
  // ---------------------------------------------------------------------

  /** interface.py lines 34-39: drop rows without coordinates and rename the coordinate columns. */
  method NormalizeCoordinates(df0: Table) returns (df: Table)
    requires Wf(df0)
    ensures df == LatLngStep(df0)
  {
    df := df0;
    var latCol := DetectColumn(df.columns, LAT_CANDIDATES);
    var lngCol := DetectColumn(df.columns, LNG_CANDIDATES);
    if latCol.Some? && lngCol.Some? {
      df := DropNA(df, [latCol.value, lngCol.value]);
      df := Rename(df, map[latCol.value := "lat", lngCol.value := "lng"]);
    }
  }

  /** interface.py lines 42-45: coerce the date column and move it into the index. */
  method IndexByDate(df0: Table, parse: string -> Option<Date>) returns (df: Table)
    requires Wf(df0)
    ensures df == DateStep(df0, parse)
  {
    df := df0;
    if DetectColumn(df.columns, DATE_CANDIDATES).Some? {
      var timeCol := DetectColumn(df.columns, DATE_CANDIDATES).value;
      AssignWf(df, timeCol, ToDatetime(Column(df, timeCol), parse));
      df := Assign(df, timeCol, ToDatetime(Column(df, timeCol), parse));
      df := SetIndex(df, timeCol);
    }
  }

  /** interface.py lines 48-50: rename the burned-area column. */
  method NormalizeArea(df0: Table) returns (df: Table)
    requires Wf(df0)
    ensures df == AreaStep(df0)
  {
    df := df0;
    var superficieCol := DetectColumn(df.columns, AREA_CANDIDATES);
    if superficieCol.Some? {
      df := Rename(df, map[superficieCol.value := "superficie"]);
    }
  }

  /** interface.py lines 53-57: rename the cause column, or add one holding `Desconocida`. */
  method NormalizeCause(df0: Table) returns (df: Table)
    requires Wf(df0)
    ensures df == CauseStep(df0)
  {
    df := df0;
    var causaCol := DetectColumn(df.columns, CAUSE_CANDIDATES);
    if causaCol.Some? {
      df := Rename(df, map[causaCol.value := "causa"]);
    } else {
      df := Assign(df, "causa", seq(|df.rows|, _ => Some(Text(UNKNOWN_CAUSE))));
    }
  }

  /**
   * `clean_dataset(df)`: rebinds the frame through the four steps, in
   * source order, and returns it.
   */
  method CleanDataset(raw: Table, parse: string -> Option<Date>) returns (df: Table)
    requires Wf(raw)
    ensures df == Normalized(raw, parse)
    ensures Wf(df) && "causa" in df.columns
    ensures NoneIn(CAUSE_CANDIDATES, raw.columns) ==>
      forall i | 0 <= i < |df.rows| :: CellAt(df, i, "causa") == Some(Text(UNKNOWN_CAUSE))
    ensures |df.rows| <= |raw.rows|
    ensures !BothCoordinates(raw.columns) ==> |df.rows| == |raw.rows|
    ensures BothCoordinates(raw.columns) ==>
      && "lat" in df.columns && "lng" in df.columns
      && forall i | 0 <= i < |df.rows| :: CellAt(df, i, "lat").Some? && CellAt(df, i, "lng").Some?
    ensures BothCoordinates(raw.columns) ==>
      && |df.rows| == |CompleteCoordinates(raw).rows|
      && forall i | 0 <= i < |df.rows| ::
           && CellAt(df, i, "lat") == CellAt(CompleteCoordinates(raw), i, DetectColumn(raw.columns, LAT_CANDIDATES).value)
           && CellAt(df, i, "lng") == CellAt(CompleteCoordinates(raw), i, DetectColumn(raw.columns, LNG_CANDIDATES).value)
    ensures DetectColumn(raw.columns, DATE_CANDIDATES).Some? ==>
      && df.indexName == DetectColumn(raw.columns, DATE_CANDIDATES)
      && DetectColumn(raw.columns, DATE_CANDIDATES).value !in df.columns
    ensures DetectColumn(raw.columns, DATE_CANDIDATES).None? ==> df.indexName == raw.indexName
  {
    LatLngWf(raw);
    df := NormalizeCoordinates(raw);
    df := IndexByDate(df, parse);
    assert df == AfterDate(raw, parse);
    df := NormalizeArea(df);
    assert df == AfterArea(raw, parse);
    df := NormalizeCause(df);
    NormalizedSummary(raw, parse);
  }
}
