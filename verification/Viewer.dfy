/**
  The viewer's one piece of state: the current result, set by a successful
  load and read by save. Dialogs, message boxes and file formats are outside
  the model; what they contribute arrives as parameters.
 */
module Viewer {
  import opened Wrappers
  import opened Frames
  import opened Extraction

  /** What choosing and reading the input file produced. */
  datatype ReadOutcome =
    | Dismissed            // the file dialog was closed without a choice
    | Unreadable           // the file could not be opened or decoded in either encoding
    | Parsed(table: Table)

  /** What a load reported to the user. */
  datatype LoadStatus =
    | Cancelled                // the file dialog was dismissed
    | ReadFailed               // the file could not be opened or decoded
    | Rejected(error: LoadError)
    | Loaded(result: Table)

  /** What a save did. */
  datatype SaveStatus =
    | NoDataWarning                         // nothing loaded yet: a warning, nothing written
    | SaveCancelled                         // the save dialog was closed without a choice
    | Written(path: string, sheet: seq<Row>)

  /** A header as a line of present cells. */
  function HeaderLine(header: seq<string>): (r: Row)
    ensures |r| == |header|
    ensures forall j | 0 <= j < |header| :: r[j] == Some(header[j])
  {
    if header == [] then [] else [Some(header[0])] + HeaderLine(header[1..])
  }

  /**
    The sheet written for a table: the header line and then the rows, with no
    index column, so every line is exactly as wide as the header. Missing
    cells stay missing (empty in the workbook).
   */
  function Sheet(t: Table): (s: seq<Row>)
    requires WellFormed(t)
    ensures |s| == |t.rows| + 1
    ensures s[0] == HeaderLine(t.header) && s[1..] == t.rows
    ensures forall i | 0 <= i < |s| :: |s[i]| == |t.header|
  {
    [HeaderLine(t.header)] + t.rows
  }

  class App {
    /** The current result (`result_df`); None until a load succeeds. */
    var result: Option<Table>

    /** A stored result is always a complete extraction: well formed and 21 columns wide. */
    ghost predicate Valid()
      reads this
    {
      result.Some? ==> WellFormed(result.value) && |result.value.header| == |ExtractColumns|
    }

    constructor ()
      ensures Valid() && result == None
    {
      result := None;
    }

    /**
      Loads a table. Only a successful extraction replaces the result, and it
      replaces it wholesale; a dismissed dialog, an unreadable file, a missing
      condition column or a too-narrow input leave it as it was.
     */
    method Load(input: ReadOutcome) returns (status: LoadStatus)
      requires Valid()
      requires input.Parsed? ==> WellFormed(input.table)
      modifies this
      ensures Valid()
      ensures input.Dismissed? ==> status == Cancelled
      ensures input.Unreadable? ==> status == ReadFailed
      ensures input.Parsed? ==>
        status == (match Extract(input.table)
                   case Success(out) => Loaded(out)
                   case Failure(e) => Rejected(e))
      ensures status.Loaded? ==> result == Some(status.result)
      ensures !status.Loaded? ==> result == old(result)
    {
      match input {
        case Dismissed =>
          status := Cancelled;
        case Unreadable =>
          status := ReadFailed;
        case Parsed(t) =>
          match Extract(t) {
            case Success(out) =>
              result := Some(out);
              status := Loaded(out);
            case Failure(e) =>
              status := Rejected(e);
          }
      }
    }

    /**
      Saves the current result to `destination`, the path chosen in the save
      dialog. None, like the empty path the dialog returns when it is
      dismissed, cancels the save. Without a result it only warns.
     */
    method Save(destination: Option<string>) returns (status: SaveStatus)
      requires Valid()
      ensures result.None? ==> status == NoDataWarning
      ensures result.Some? && (destination.None? || destination.value == "") ==> status == SaveCancelled
      ensures result.Some? && destination.Some? && destination.value != "" ==>
        status == Written(destination.value, Sheet(result.value))
    {
      if result.None? {
        return NoDataWarning;
      }
      if destination.None? || destination.value == "" {
        return SaveCancelled;
      }
      status := Written(destination.value, Sheet(result.value));
    }
  }

  /** On a fresh viewer, after one load that stored nothing, saving warns and writes nothing. */
  method SaveBeforeLoad(failedInput: ReadOutcome, destination: Option<string>) returns (status: SaveStatus)
    requires failedInput.Parsed? ==> WellFormed(failedInput.table) && !Extract(failedInput.table).Success?
    ensures status == NoDataWarning
  {
    var app := new App();
    var loaded := app.Load(failedInput);
    status := app.Save(destination);
  }
}
