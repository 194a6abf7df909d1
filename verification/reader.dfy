/**
 * The reading stage of `DataProcessor`: `_read_file` dispatches on the
 * lower-cased suffix, `_read_excel` falls back from one decoder to another,
 * and `_read_csv` tries separators in a fixed order. The decoders themselves
 * are oracles: each maps a path (and separator) to a table, or to `None`
 * where the library raises.
 */
module Reader {
  import opened Results
  import opened Text
  import opened Paths
  import opened Frames

  datatype Format = Excel | Csv

  /** The keys of `supported_formats`. */
  const SupportedExtensions: set<string> := {".xlsx", ".xls", ".csv"}

  /** The extension `_read_file` looks up: `file_path.suffix.lower()`. */
  function Extension(name: string): string
  {
    Lower(Suffix(name))
  }

  /** The reader `supported_formats` maps an extension to, if any. */
  function FormatOf(name: string): (r: Option<Format>)
    ensures r.Some? <==> Extension(name) in SupportedExtensions
    ensures r == Some(Excel) <==> Extension(name) in {".xlsx", ".xls"}
    ensures r == Some(Csv) <==> Extension(name) == ".csv"
  {
    var ext := Extension(name);
    if ext == ".xlsx" || ext == ".xls" then Some(Excel)
    else if ext == ".csv" then Some(Csv)
    else None
  }

  /** Dispatch ignores letter case: names that agree once lower-cased go to the same reader. */
  lemma FormatOfCaseInsensitive(n1: string, n2: string)
    requires Lower(n1) == Lower(n2)
    ensures FormatOf(n1) == FormatOf(n2)
  {
    SuffixLower(n1);
    SuffixLower(n2);
  }

  /** The decoding libraries, as oracles. `None` stands for an exception. */
  datatype Decoders = Decoders(
    excelPrimary: Path -> Option<Frame>,
    excelFallback: Path -> Option<Frame>,
    csvParse: (Path, char) -> Option<Frame>,
    csvFallback: Path -> Option<Frame>)

  /** `_read_excel`: the primary decoder's table, or the fallback's when the primary raises. */
  function ReadExcel(d: Decoders, p: Path): (r: Option<Frame>)
    ensures d.excelPrimary(p).Some? ==> r == d.excelPrimary(p)
    ensures d.excelPrimary(p).None? ==> r == d.excelFallback(p)
  {
    if d.excelPrimary(p).Some? then d.excelPrimary(p) else d.excelFallback(p)
  }

  /** Separators in the order `_read_csv` tries them. */
  const Separators: seq<char> := [',', ';', '\t', '|']

  /** A parse is accepted when it did not raise and has at least one row. */
  predicate Accepts(t: Option<Frame>)
  {
    t.Some? && t.value.height > 0
  }

  /** The index of the first separator whose parse is accepted, or `|seps|` when none is. */
  function FirstAccepted(d: Decoders, p: Path, seps: seq<char>): (k: nat)
    ensures k <= |seps|
    ensures forall j :: 0 <= j < k ==> !Accepts(d.csvParse(p, seps[j]))
    ensures k < |seps| ==> Accepts(d.csvParse(p, seps[k]))
  {
    if |seps| == 0 then 0
    else if Accepts(d.csvParse(p, seps[0])) then 0
    else 1 + FirstAccepted(d, p, seps[1..])
  }

  /** `_read_csv`: first accepted separator wins; the permissive fallback runs only when none is accepted. */
  function ReadCsv(d: Decoders, p: Path): (r: Option<Frame>)
    ensures forall k ::
      (&& 0 <= k < |Separators|
       && Accepts(d.csvParse(p, Separators[k]))
       && forall j :: 0 <= j < k ==> !Accepts(d.csvParse(p, Separators[j])))
      ==> r == d.csvParse(p, Separators[k])
    ensures (forall k :: 0 <= k < |Separators| ==> !Accepts(d.csvParse(p, Separators[k]))) ==> r == d.csvFallback(p)
  {
    var k := FirstAccepted(d, p, Separators);
    if k < |Separators| then d.csvParse(p, Separators[k]) else d.csvFallback(p)
  }

  /**
   * The separator loop of `_read_csv` as written, also reporting the
   * separators it consulted: a prefix of the priority order that stops at the
   * first accepted parse.
   */
  method ReadCsvLoop(d: Decoders, p: Path) returns (r: Option<Frame>, tried: seq<char>)
    ensures |tried| <= |Separators| && tried == Separators[..|tried|]
    ensures forall j :: 0 <= j < |tried| && j + 1 < |tried| ==> !Accepts(d.csvParse(p, tried[j]))
    ensures |tried| > 0 && Accepts(d.csvParse(p, tried[|tried| - 1])) ==> r == d.csvParse(p, tried[|tried| - 1])
    ensures !(|tried| > 0 && Accepts(d.csvParse(p, tried[|tried| - 1]))) ==>
      tried == Separators && r == d.csvFallback(p) &&
      forall j :: 0 <= j < |Separators| ==> !Accepts(d.csvParse(p, Separators[j]))
    ensures r == ReadCsv(d, p)
  {
    var i := 0;
    tried := [];
    while i < |Separators|
      invariant 0 <= i <= |Separators|
      invariant tried == Separators[..i]
      invariant forall j :: 0 <= j < i ==> !Accepts(d.csvParse(p, Separators[j]))
    {
      var sep := Separators[i];
      tried := tried + [sep];
      var parsed := d.csvParse(p, sep);
      if parsed.Some? && parsed.value.height > 0 {
        r := parsed;
        assert FirstAccepted(d, p, Separators) == i by {
          var k := FirstAccepted(d, p, Separators);
          assert !(k < i);
          assert !(k > i);
        }
        return;
      }
      i := i + 1;
    }
    r := d.csvFallback(p);
  }

  /**
   * `_read_file`: an unsupported extension raises (`Failure` carrying the
   * extension); otherwise the reader's table, with any reader exception turned
   * into `None`.
   */
  function ReadFile(d: Decoders, p: Path): (r: Result<Option<Frame>, string>)
    ensures r.Failure? <==> Extension(Name(p)) !in SupportedExtensions
    ensures r.Failure? ==> r.error == Extension(Name(p))
    ensures FormatOf(Name(p)) == Some(Excel) ==> r == Success(ReadExcel(d, p))
    ensures FormatOf(Name(p)) == Some(Csv) ==> r == Success(ReadCsv(d, p))
    ensures Extension(Name(p)) in {".xlsx", ".xls"} ==> r == Success(ReadExcel(d, p))
    ensures Extension(Name(p)) == ".csv" ==> r == Success(ReadCsv(d, p))
  {
    match FormatOf(Name(p))
    case None => Failure(Extension(Name(p)))
    case Some(Excel) => Success(ReadExcel(d, p))
    case Some(Csv) => Success(ReadCsv(d, p))
  }
}
