/**
 * The archive rewrite: the table of modifications chosen on the command line
 * and the loop that copies every entry of the source GTFS zip file into the
 * target, passing the entries that have a modification through it.
 *
 * The zip files are modelled by the sequence of their entries in `infolist()`
 * order; the target is the sequence of entries written before the run ended,
 * together with the exception that ended it, if any.
 */
module Archive {
  import opened GtfsBase
  import Quotes
  import Bikes

  /** One member of a zip file: its name and its uncompressed content. */
  datatype ZipEntry = ZipEntry(name: string, content: Bytes)

  /** The two rewrites a file name can be bound to. */
  datatype Modification =
    | AddBikes(existsOk: bool)   // `add_bikes_allowed` with the given `exists_ok`
    | EscapeQuotes               // `escape_double_quotes`

  const Trips := "trips.txt"
  const Routes := "routes.txt"

  /** The `modifications` dictionary built from the three command-line flags. */
  function Modifications(bikesAllowed: bool, existsOk: bool, escapeRoutes: bool)
    : (m: map<string, Modification>)
    ensures Trips in m <==> bikesAllowed
    ensures Routes in m <==> escapeRoutes
    ensures bikesAllowed ==> m[Trips] == AddBikes(existsOk)
    ensures escapeRoutes ==> m[Routes] == EscapeQuotes
    ensures forall name :: name in m ==> name == Trips || name == Routes
  {
    var bikes := if bikesAllowed then map[Trips := AddBikes(existsOk)] else map[];
    if escapeRoutes then bikes[Routes := EscapeQuotes] else bikes
  }

  /** Run one modification on an entry's bytes: the text it returns, or its exception. */
  function Modify(mod: Modification, file: Bytes, lib: Library): (r: Result<string>)
    ensures mod.EscapeQuotes? ==> (r.Success? <==> lib.decodeUtf8(file).Some?)
    ensures lib.decodeUtf8(file).None? ==> r == Failure(DecodeError)
  {
    match mod
    case AddBikes(existsOk) => Bikes.AddBikesAllowedFile(file, existsOk, lib)
    case EscapeQuotes => Quotes.EscapeDoubleQuotesFile(file, lib)
  }

  /**
   * What one iteration writes for `e`: the UTF-8 encoding of the modified text
   * under the same name when the name is a key of `mods`, the entry unchanged
   * otherwise; or the exception the modification raised.
   */
  function Written(e: ZipEntry, mods: map<string, Modification>, lib: Library): (r: Result<ZipEntry>)
    ensures e.name !in mods ==> r == Success(e)
    ensures r.Success? ==> r.value.name == e.name
    ensures e.name in mods ==>
      (r.Success? <==> Modify(mods[e.name], e.content, lib).Success?)
  {
    if e.name in mods then
      match Modify(mods[e.name], e.content, lib)
      case Failure(err) => Failure(err)
      case Success(text) => Success(ZipEntry(e.name, lib.encodeUtf8(text)))
    else Success(e)
  }

  /**
   * `modify_zip_file`: every source entry in order is either rewritten or
   * copied; the first exception stops the loop, leaving the entries before it
   * in the target.
   */
  method ModifyZipFile(source: seq<ZipEntry>, modifications: map<string, Modification>, lib: Library)
    returns (target: seq<ZipEntry>, raised: Option<Error>)
    ensures |target| <= |source|
    ensures forall i :: 0 <= i < |target| ==>
      Written(source[i], modifications, lib) == Success(target[i])
    ensures raised.None? ==> |target| == |source|
    ensures raised.Some? ==>
      |target| < |source| && Written(source[|target|], modifications, lib) == Failure(raised.value)
    ensures forall i :: 0 <= i < |target| ==> target[i].name == source[i].name
    ensures forall i :: 0 <= i < |target| && source[i].name !in modifications ==>
      target[i] == source[i]
    ensures forall i :: 0 <= i < |target| && source[i].name in modifications ==>
      && Modify(modifications[source[i].name], source[i].content, lib).Success?
      && target[i].content
         == lib.encodeUtf8(Modify(modifications[source[i].name], source[i].content, lib).value)
    ensures raised.None? <==>
      forall i :: 0 <= i < |source| ==> Written(source[i], modifications, lib).Success?
  {
    target := [];
    raised := None;
    for i := 0 to |source|
      invariant |target| == i
      invariant forall j :: 0 <= j < i ==>
        Written(source[j], modifications, lib) == Success(target[j])
    {
      var entry := source[i];
      if entry.name in modifications {
        var content := Modify(modifications[entry.name], entry.content, lib);
        if content.Failure? {
          raised := Some(content.error);
          return;
        }
        target := target + [ZipEntry(entry.name, lib.encodeUtf8(content.value))];
      } else {
        target := target + [entry];
      }
    }
  }

  // ---------------------------------------------------------------------
  // Properties of the chosen modifications

  /** With no flag set, every entry is written as it was read. */
  lemma NoFlagsCopies(e: ZipEntry, existsOk: bool, lib: Library)
    ensures Written(e, Modifications(false, existsOk, false), lib) == Success(e)
  {
  }

  /** Only trips.txt and routes.txt can ever be rewritten. */
  lemma OtherEntriesCopied(e: ZipEntry, bikesAllowed: bool, existsOk: bool, escapeRoutes: bool, lib: Library)
    requires e.name != Trips && e.name != Routes
    ensures Written(e, Modifications(bikesAllowed, existsOk, escapeRoutes), lib) == Success(e)
  {
  }

  /**
   * routes.txt with the escape flag fails only when it is not valid UTF-8,
   * and is otherwise written as the decoded text with the selected quotes
   * doubled.
   */
  lemma RoutesFailOnlyOnDecode(e: ZipEntry, bikesAllowed: bool, existsOk: bool, lib: Library)
    requires e.name == Routes
    ensures var r := Written(e, Modifications(bikesAllowed, existsOk, true), lib);
      && (r.Success? <==> lib.decodeUtf8(e.content).Some?)
      && (r.Failure? ==> r.error == DecodeError)
      && (r.Success? ==>
            r.value == ZipEntry(Routes, lib.encodeUtf8(Quotes.Pieces(lib.decodeUtf8(e.content).value, 0))))
  {
  }

  /**
   * trips.txt with the bikes flag is written exactly when it decodes and
   * parses into rows whose header lacks the column, and then holds the rows
   * with the column appended; otherwise the run ends with the decoding or
   * CSV error, or with the exception `add_bikes_allowed` raises.
   */
  lemma TripsWrittenExactlyWithoutColumn(e: ZipEntry, existsOk: bool, escapeRoutes: bool, lib: Library)
    requires e.name == Trips
    ensures var r := Written(e, Modifications(true, existsOk, escapeRoutes), lib);
      var p := Bikes.ParsedTrips(e.content, lib);
      && (p.Failure? ==> r == Failure(p.error))
      && (r.Success? <==> p.Success? && |p.value| > 0 && Bikes.BikesAllowed !in p.value[0])
      && (r.Success? ==>
            r.value == ZipEntry(Trips, lib.encodeUtf8(lib.writeCsv(
              [p.value[0] + [Bikes.BikesAllowed]] + Bikes.AppendToEach(p.value[1..], "1")))))
  {
  }
}
