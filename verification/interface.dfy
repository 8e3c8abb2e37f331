/**
 * The helpers of the wildfire dashboard's loading code: finding a column
 * under one of its alternative names, and choosing which entry of the
 * uploaded archive is read as the incident table.
 */
module Interface {
  import opened Wrappers
  import opened Frame

  // ---------------------------------------------------------------------
  // detect_column
  // ---------------------------------------------------------------------

  /** None of `names` is a column. */
  predicate NoneIn(names: seq<ColumnName>, columns: seq<ColumnName>) {
    forall n | n in names :: n !in columns
  }

  /** Each of `names` is a column of `a` exactly when it is a column of `b`. */
  predicate SameMembership(a: seq<ColumnName>, b: seq<ColumnName>, names: seq<ColumnName>) {
    forall n | n in names :: (n in a <==> n in b)
  }

  /**
   * The first candidate, in list order, that is a column (exact,
   * case-sensitive match), or None when no candidate is.
   */
  function DetectColumn(columns: seq<ColumnName>, candidates: seq<ColumnName>): (r: Option<ColumnName>)
    ensures r.Some? ==> r.value in candidates && r.value in columns
    ensures r.Some? ==> exists k | 0 <= k < |candidates| ::
      candidates[k] == r.value && NoneIn(candidates[..k], columns)
    ensures r.None? <==> NoneIn(candidates, columns)
  {
    if candidates == [] then None
    else if candidates[0] in columns then
      assert candidates[..0] == [];
      Some(candidates[0])
    else
      var r := DetectColumn(columns, candidates[1..]);
      if r.Some? then
        var k :| 0 <= k < |candidates[1..]| && candidates[1..][k] == r.value && NoneIn(candidates[1..][..k], columns);
        assert candidates[..k + 1] == [candidates[0]] + candidates[1..][..k];
        r
      else
        r
  }

  /** The converse: the earliest candidate that is a column is the one detected. */
  lemma {:induction false} DetectColumnFindsFirst(columns: seq<ColumnName>, candidates: seq<ColumnName>, k: nat)
    requires k < |candidates| && candidates[k] in columns && NoneIn(candidates[..k], columns)
    ensures DetectColumn(columns, candidates) == Some(candidates[k])
  {
    if k > 0 {
      assert candidates[0] in candidates[..k];
      assert candidates[1..][..k - 1] == candidates[1..k];
      DetectColumnFindsFirst(columns, candidates[1..], k - 1);
    }
  }

  /** Detection looks only at which candidates are columns. */
  lemma {:induction false} DetectColumnRespectsMembership(a: seq<ColumnName>, b: seq<ColumnName>, candidates: seq<ColumnName>)
    requires SameMembership(a, b, candidates)
    ensures DetectColumn(a, candidates) == DetectColumn(b, candidates)
  {
    if candidates != [] {
      assert candidates[0] in candidates;
      DetectColumnRespectsMembership(a, b, candidates[1..]);
    }
  }

  // ---------------------------------------------------------------------
  // Choosing the CSV entry of the archive
  // ---------------------------------------------------------------------

  /** Python's `s.endswith(suffix)`: the last `|suffix|` characters of `s` are `suffix`. */
  predicate EndsWith(s: string, suffix: string): (b: bool)
    ensures b <==> |suffix| <= |s| && forall j | 0 <= j < |suffix| :: s[|s| - |suffix| + j] == suffix[j]
  {
    |suffix| <= |s| && s[|s| - |suffix|..] == suffix
  }

  /** The names that end in `.csv`, in the order of the listing. */
  function CsvNames(names: seq<string>): (csv: seq<string>)
    ensures forall n | n in csv :: n in names && EndsWith(n, ".csv")
    ensures forall n | n in names && EndsWith(n, ".csv") :: n in csv
    ensures csv != [] ==> exists k | 0 <= k < |names| ::
      names[k] == csv[0] && forall j | 0 <= j < k :: !EndsWith(names[j], ".csv")
  {
    if names == [] then []
    else if EndsWith(names[0], ".csv") then [names[0]] + CsvNames(names[1..])
    else
      var csv := CsvNames(names[1..]);
      if csv != [] then
        var k :| 0 <= k < |names[1..]| && names[1..][k] == csv[0] &&
          forall j | 0 <= j < k :: !EndsWith(names[1..][j], ".csv");
        assert names[k + 1] == csv[0];
        csv
      else
        csv
  }

  /** Indexing `[0]` into an empty list raises IndexError. */
  datatype LoadError = NoCsvEntry

  /**
   * The archive entry that is read: the first name, in listing order,
   * that ends with `.csv`. Every entry is considered, whatever folder it
   * sits in.
   */
  function SelectCsvName(names: seq<string>): (r: Result<string, LoadError>)
    ensures r.Success? ==> r.value in names && EndsWith(r.value, ".csv")
    ensures r.Success? ==> exists k | 0 <= k < |names| ::
      names[k] == r.value && forall j | 0 <= j < k :: !EndsWith(names[j], ".csv")
    ensures r.Failure? <==> forall n | n in names :: !EndsWith(n, ".csv")
  {
    var csv := CsvNames(names);
    if |csv| == 0 then Failure(NoCsvEntry) else Success(csv[0])
  }

  /** The converse: the earliest `.csv` entry is the one chosen. */
  lemma {:induction false} SelectCsvNameFindsFirst(names: seq<string>, k: nat)
    requires k < |names| && EndsWith(names[k], ".csv")
    requires forall j | 0 <= j < k :: !EndsWith(names[j], ".csv")
    ensures SelectCsvName(names) == Success(names[k])
  {
    if k > 0 {
      SelectCsvNameFindsFirst(names[1..], k - 1);
    }
  }
}
