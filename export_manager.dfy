/**
 * The string logic of the chart exporter: the format dispatch of
 * export_chart, the file-name normalisation of generate_file_name and the
 * content-type table of send_as_download.
 *
 * PHP strings are byte strings; here they are `string`, and only the ASCII
 * letters A-Z are affected by lower-casing.  The exporters themselves, the
 * HTTP headers and WordPress's sanitize_title are not part of this model:
 * sanitize_title is a parameter and the formatted date is an input string.
 */
module ExportManager {
  import opened Wrappers

  // ---------------------------------------------------------------------
  // ASCII lower-casing (strtolower)
  // ---------------------------------------------------------------------

  predicate IsUpper(c: char) { 'A' <= c <= 'Z' }

  function LowerChar(c: char): char
  {
    if IsUpper(c) then (c as int + 32) as char else c
  }

  /** strtolower: every ASCII capital becomes its small letter, nothing else changes. */
  function ToLower(s: string): (r: string)
    ensures |r| == |s|
    ensures forall i :: 0 <= i < |r| ==> !IsUpper(r[i])
    ensures forall i :: 0 <= i < |s| && !IsUpper(s[i]) ==> r[i] == s[i]
    ensures forall i :: 0 <= i < |s| && IsUpper(s[i]) ==> r[i] as int == s[i] as int + 32
  {
    seq(|s|, i requires 0 <= i < |s| => LowerChar(s[i]))
  }

  /** A string without capitals is its own lower-case form. */
  lemma ToLowerOfLower(s: string)
    requires forall i :: 0 <= i < |s| ==> !IsUpper(s[i])
    ensures ToLower(s) == s
  {
  }

  /** Lower-casing twice is lower-casing once. */
  lemma ToLowerIdempotent(s: string)
    ensures ToLower(ToLower(s)) == ToLower(s)
  {
    ToLowerOfLower(ToLower(s));
  }

  // ---------------------------------------------------------------------
  // Format dispatch (export_chart) and content types (send_as_download)
  // ---------------------------------------------------------------------

  datatype ExportFormat = Png | Csv | Pdf | Json | Xml

  function FormatName(f: ExportFormat): string
  {
    match f
    case Png => "png"
    case Csv => "csv"
    case Pdf => "pdf"
    case Json => "json"
    case Xml => "xml"
  }

  /** The case label that a (lower-cased) format name matches, if any. */
  function FormatOf(name: string): (r: Option<ExportFormat>)
    ensures r.Some? ==> FormatName(r.value) == name
    ensures r.None? ==> forall f :: FormatName(f) != name
  {
    if name == "png" then Some(Png)
    else if name == "csv" then Some(Csv)
    else if name == "pdf" then Some(Pdf)
    else if name == "json" then Some(Json)
    else if name == "xml" then Some(Xml)
    else None
  }

  /** Every format's name is recognised as that format. */
  lemma FormatNameRoundTrip(f: ExportFormat)
    ensures FormatOf(FormatName(f)) == Some(f)
  {
  }

  /** A WordPress WP_Error: an error code and a message. */
  datatype WpError = WpError(code: string, message: string)

  /**
   * What export_chart returns: either the result of the exporter for a
   * format (whose output is not modelled), or a WP_Error.
   */
  datatype ExportOutcome = Exporter(format: ExportFormat) | Error(error: WpError)

  const InvalidFormat: WpError := WpError("invalid_format", "Invalid export format")
  const PngNotImplemented: WpError := WpError("not_implemented", "PNG export will be implemented in Phase 2")
  const XmlNotImplemented: WpError := WpError("not_implemented", "XML export will be implemented in Phase 2")

  /** The format export_chart uses when none is given. */
  const DefaultFormat: string := "png"

  /**
   * export_chart: switch on the lower-cased format.  png and xml are stubs
   * that return not_implemented; csv, pdf and json are handed to their
   * exporters; anything else is invalid_format.
   */
  function ExportChart(format: string := DefaultFormat): (r: ExportOutcome)
    ensures r == Error(InvalidFormat) <==> FormatOf(ToLower(format)).None?
    ensures r.Error? && r.error.code == "not_implemented" <==>
              FormatOf(ToLower(format)) == Some(Png) || FormatOf(ToLower(format)) == Some(Xml)
    ensures r.Exporter? <==>
              FormatOf(ToLower(format)).Some? && FormatOf(ToLower(format)).value in {Csv, Pdf, Json}
    ensures r.Exporter? ==> FormatName(r.format) == ToLower(format)
  {
    match FormatOf(ToLower(format))
    case None => Error(InvalidFormat)
    case Some(Png) => Error(PngNotImplemented)
    case Some(Xml) => Error(XmlNotImplemented)
    case Some(f) => Exporter(f)
  }

  /** Called without a format, export_chart takes the png stub. */
  lemma ExportChartDefault()
    ensures ExportChart() == Error(PngNotImplemented)
    ensures ExportChart().error.code == "not_implemented"
  {
  }

  /** Case variants of one format name take the same branch of export_chart. */
  lemma ExportChartIgnoresCase(format: string, other: string)
    ensures ExportChart(ToLower(format)) == ExportChart(format)
    ensures ToLower(format) == ToLower(other) ==> ExportChart(format) == ExportChart(other)
  {
    ToLowerIdempotent(format);
  }

  const ContentTypes: map<string, string> := map[
    "csv" := "text/csv",
    "json" := "application/json",
    "png" := "image/png",
    "pdf" := "application/pdf",
    "xml" := "text/xml"
  ]

  const DefaultContentType: string := "application/octet-stream"

  /** The MIME type of a known export format, independent of the lookup table. */
  function MimeType(f: ExportFormat): string
  {
    match f
    case Csv => "text/csv"
    case Json => "application/json"
    case Png => "image/png"
    case Pdf => "application/pdf"
    case Xml => "text/xml"
  }

  /**
   * The Content-Type header of send_as_download: the table entry for the
   * format exactly as given (no lower-casing), or the octet-stream default.
   */
  function ContentType(format: string): (r: string)
    ensures FormatOf(format).Some? ==> r == MimeType(FormatOf(format).value)
    ensures r == DefaultContentType <==> FormatOf(format).None?
  {
    if format in ContentTypes then ContentTypes[format] else DefaultContentType
  }

  /**
   * The content-type lookup is case-sensitive although export_chart is not:
   * "CSV" is exported as CSV but would be sent as application/octet-stream.
   */
  lemma ContentTypeIsCaseSensitive()
    ensures ExportChart("CSV") == Exporter(Csv)
    ensures ContentType("CSV") == DefaultContentType
  {
    assert ToLower("CSV") == "csv";
  }

  // ---------------------------------------------------------------------
  // File-name normalisation (generate_file_name)
  // ---------------------------------------------------------------------

  /** The characters the regular expression [^a-z0-9-]+ leaves alone. */
  predicate Allowed(c: char) { 'a' <= c <= 'z' || '0' <= c <= '9' || c == '-' }

  predicate AllAllowed(s: string) { forall i :: 0 <= i < |s| ==> Allowed(s[i]) }

  /** No character of `s` is allowed: `s` lies wholly inside one replaced run. */
  predicate NoneAllowed(s: string) { forall i :: 0 <= i < |s| ==> !Allowed(s[i]) }

  /**
   * preg_replace('/[^a-z0-9-]+/', '-', s), scanning left to right: `inRun`
   * says whether the character before `s` was already part of a replaced
   * run, so each maximal run of characters outside a-z, 0-9 and '-' yields
   * a single '-'.
   */
  function CollapseFrom(s: string, inRun: bool): (r: string)
    ensures |r| <= |s|
    decreases |s|
  {
    if s == [] then [] else Emit(s[0], inRun) + CollapseFrom(s[1..], !Allowed(s[0]))
  }

  /**
   * What one character contributes: an allowed character itself, the first
   * character of a run a '-', and any later character of a run nothing.
   */
  function Emit(c: char, inRun: bool): string
  {
    if Allowed(c) then [c] else if inRun then [] else "-"
  }

  /** The whole replacement, starting outside any run. */
  function Collapse(s: string): (r: string)
    ensures |r| <= |s|
  {
    CollapseFrom(s, false)
  }

  /** Whether the scan is inside a run after reading `s`, having started in state `inRun`. */
  function EndsInRun(s: string, inRun: bool): bool
  {
    if s == [] then inRun else !Allowed(s[|s| - 1])
  }

  /** The collapsed string holds only a-z, 0-9 and '-'. */
  lemma {:induction false} CollapseFromAllowed(s: string, inRun: bool)
    ensures AllAllowed(CollapseFrom(s, inRun))
    decreases |s|
  {
    if s != [] {
      CollapseFromAllowed(s[1..], !Allowed(s[0]));
      var head := Emit(s[0], inRun);
      var tail := CollapseFrom(s[1..], !Allowed(s[0]));
      assert AllAllowed(head);
      assert forall i :: 0 <= i < |head + tail| ==> (head + tail)[i] == if i < |head| then head[i] else tail[i - |head|];
    }
  }

  /** The output of the replacement holds only a-z, 0-9 and '-'. */
  lemma CollapseOutputAllowed(s: string)
    ensures AllAllowed(Collapse(s))
  {
    CollapseFromAllowed(s, false);
  }

  /** A string of allowed characters is left unchanged. */
  lemma {:induction false} CollapseAllowed(s: string, inRun: bool)
    requires AllAllowed(s)
    ensures CollapseFrom(s, inRun) == s
    decreases |s|
  {
    if s != [] {
      CollapseAllowed(s[1..], false);
      assert [s[0]] + s[1..] == s;
    }
  }

  /** The scan of `x + y` is the scan of `x` followed by the scan of `y` in the state `x` ends in. */
  lemma {:induction false} CollapseAppend(x: string, y: string, inRun: bool)
    ensures CollapseFrom(x + y, inRun) == CollapseFrom(x, inRun) + CollapseFrom(y, EndsInRun(x, inRun))
    decreases |x|
  {
    if x == [] {
      assert x + y == y;
    } else {
      var next := !Allowed(x[0]);
      CollapseAppend(x[1..], y, next);
      CollapseFromFront(x, y, inRun);
      EndsInRunFront(x, inRun);
      var head := Emit(x[0], inRun);
      var rest := CollapseFrom(x[1..], next);
      var tail := CollapseFrom(y, EndsInRun(x, inRun));
      assert head + (rest + tail) == (head + rest) + tail;
    }
  }

  /** The scan of x + y begins with what the first character of `x` emits. */
  lemma CollapseFromFront(x: string, y: string, inRun: bool)
    requires x != []
    ensures CollapseFrom(x + y, inRun) == Emit(x[0], inRun) + CollapseFrom(x[1..] + y, !Allowed(x[0]))
  {
    assert (x + y)[0] == x[0];
    assert (x + y)[1..] == x[1..] + y;
  }

  /** The state after `x` is the state after its tail, started from the state after x[0]. */
  lemma EndsInRunFront(x: string, inRun: bool)
    requires x != []
    ensures EndsInRun(x[1..], !Allowed(x[0])) == EndsInRun(x, inRun)
  {
    if |x| > 1 {
      assert x[1..][|x| - 2] == x[|x| - 1];
    }
  }

  /** A non-empty run of disallowed characters becomes one '-', or nothing inside a run. */
  lemma {:induction false} CollapseOfRun(run: string, inRun: bool)
    requires NoneAllowed(run)
    ensures CollapseFrom(run, inRun) == if run == [] || inRun then [] else "-"
    decreases |run|
  {
    if run != [] {
      CollapseOfRun(run[1..], true);
    }
  }

  /**
   * One maximal run of disallowed characters becomes exactly one '-': a run
   * between a part that ends in an allowed character (or is empty) and a
   * part that starts with one (or is empty).
   */
  lemma CollapseRun(a: string, run: string, b: string)
    requires a == [] || Allowed(a[|a| - 1])
    requires |run| > 0 && NoneAllowed(run)
    requires b == [] || Allowed(b[0])
    ensures Collapse(a + run + b) == Collapse(a) + "-" + Collapse(b)
  {
    calc {
      Collapse(a + run + b);
    == { assert a + run + b == a + (run + b); }
      CollapseFrom(a + (run + b), false);
    == { CollapseAppend(a, run + b, false); assert !EndsInRun(a, false); }
      CollapseFrom(a, false) + CollapseFrom(run + b, false);
    == { CollapseAppend(run, b, false); assert EndsInRun(run, false); CollapseOfRun(run, false); CollapseBeforeAllowed(b); }
      CollapseFrom(a, false) + ("-" + CollapseFrom(b, false));
    }
  }

  /** The scan state does not matter in front of an allowed character. */
  lemma CollapseBeforeAllowed(b: string)
    requires b == [] || Allowed(b[0])
    ensures CollapseFrom(b, true) == CollapseFrom(b, false)
  {
    if b != [] {
      assert Emit(b[0], true) == Emit(b[0], false);
    }
  }

  /** The number of dashes trim(s, '-') removes at the front. */
  function LeadingDashes(s: string): (n: nat)
    ensures n <= |s|
    ensures forall i :: 0 <= i < n ==> s[i] == '-'
    ensures n == |s| || s[n] != '-'
  {
    if s != [] && s[0] == '-' then 1 + LeadingDashes(s[1..]) else 0
  }

  /** The number of dashes trim(s, '-') removes at the back. */
  function TrailingDashes(s: string): (n: nat)
    ensures n <= |s|
    ensures forall i :: |s| - n <= i < |s| ==> s[i] == '-'
    ensures n == |s| || s[|s| - n - 1] != '-'
  {
    if s != [] && s[|s| - 1] == '-' then 1 + TrailingDashes(s[..|s| - 1]) else 0
  }

  /** trim(s, '-'): the leading dashes removed, then the trailing ones. */
  function TrimDashes(s: string): (r: string)
    ensures |r| <= |s|
  {
    var rest := s[LeadingDashes(s)..];
    rest[..|rest| - TrailingDashes(rest)]
  }

  /**
   * The trimmed string is the slice of `s` between its outer runs of
   * dashes: everything before and after the slice is a dash.
   */
  lemma TrimDashesSlice(s: string)
    ensures var k := LeadingDashes(s);
            var r := TrimDashes(s);
            k + |r| <= |s| && r == s[k..k + |r|] &&
            (forall i :: 0 <= i < k ==> s[i] == '-') &&
            (forall i :: k + |r| <= i < |s| ==> s[i] == '-')
  {
    var k := LeadingDashes(s);
    var rest := s[k..];
    var m := |rest| - TrailingDashes(rest);
    SliceOfSuffix(s, k, m);
    assert TrimDashes(s) == s[k..k + m];
    forall i | k + m <= i < |s|
      ensures s[i] == '-'
    {
      assert s[i] == rest[i - k];
    }
  }

  /** A prefix of a suffix is a middle slice. */
  lemma SliceOfSuffix(s: string, k: nat, m: nat)
    requires k <= |s| && m <= |s| - k
    ensures s[k..][..m] == s[k..k + m]
  {
  }

  /** The trimmed string neither starts nor ends with a dash. */
  lemma TrimDashesEnds(s: string)
    ensures var r := TrimDashes(s);
            r == [] || (r[0] != '-' && r[|r| - 1] != '-')
  {
    var k := LeadingDashes(s);
    var rest := s[k..];
    var t := TrailingDashes(rest);
    var r := TrimDashes(s);
    assert r == rest[..|rest| - t];
    if r != [] {
      assert r[0] == s[k];
      assert r[|r| - 1] == rest[|rest| - t - 1];
    }
  }

  /** A string that neither starts nor ends with a dash is left unchanged by trim. */
  lemma TrimDashesUnchanged(s: string)
    requires s == [] || (s[0] != '-' && s[|s| - 1] != '-')
    ensures TrimDashes(s) == s
  {
    assert LeadingDashes(s) == 0;
    assert s[0..] == s;
    assert TrailingDashes(s) == 0;
  }

  /** A file-name stem: only a-z, 0-9 and '-', and no dash at either end. */
  predicate IsStem(s: string)
  {
    AllAllowed(s) && (s == [] || (s[0] != '-' && s[|s| - 1] != '-'))
  }

  /** The normalisation chain of generate_file_name: lower-case, collapse runs, trim dashes. */
  function NormaliseStem(s: string): (r: string)
    ensures IsStem(r)
  {
    var collapsed := Collapse(ToLower(s));
    CollapseOutputAllowed(ToLower(s));
    TrimDashesSlice(collapsed);
    TrimDashesEnds(collapsed);
    TrimDashes(collapsed)
  }

  /** An allowed character is never an ASCII capital. */
  lemma AllowedNotUpper(s: string)
    requires AllAllowed(s)
    ensures forall i :: 0 <= i < |s| ==> !IsUpper(s[i])
  {
  }

  /** Normalising a stem leaves it unchanged. */
  lemma NormaliseStemFixesStems(s: string)
    requires IsStem(s)
    ensures NormaliseStem(s) == s
  {
    assert ToLower(s) == s by {
      AllowedNotUpper(s);
      ToLowerOfLower(s);
    }
    assert Collapse(s) == s by {
      CollapseAllowed(s, false);
    }
    TrimDashesUnchanged(s);
  }

  /** Normalising an already-normalised name changes nothing. */
  lemma NormaliseStemIdempotent(s: string)
    ensures NormaliseStem(NormaliseStem(s)) == NormaliseStem(s)
  {
    NormaliseStemFixesStems(NormaliseStem(s));
  }

  /** PHP truthiness of an optional string: null, "" and "0" are false. */
  predicate IsFalsy(v: Option<string>)
  {
    v.None? || v.value == "" || v.value == "0"
  }

  /** `v ? v : default` for an optional string. */
  function OrDefault(v: Option<string>, default: string): (r: string)
    ensures IsFalsy(v) ==> r == default
    ensures !IsFalsy(v) ==> r == v.value
    ensures !IsFalsy(Some(default)) ==> !IsFalsy(Some(r))
  {
    if IsFalsy(v) then default else v.value
  }

  /** The string handed to sanitize_title: title, symbol and date joined by '_'. */
  function FileNameSource(title: Option<string>, symbol: Option<string>, date: string): (r: string)
    ensures |r| > |date| && r[|r| - |date| - 1] == '_' && r[|r| - |date|..] == date
  {
    OrDefault(title, "chart") + "_" + OrDefault(symbol, "unknown") + "_" + date
  }

  /**
   * generate_file_name: the normalised stem of the sanitised source string,
   * a '.', and the format exactly as passed.
   */
  function GenerateFileName(title: Option<string>, symbol: Option<string>, date: string,
                            sanitize: string -> string, format: string): (r: string)
    ensures |r| > |format|
    ensures IsStem(r[..|r| - |format| - 1])
    ensures r[|r| - |format| - 1] == '.'
    ensures r[|r| - |format|..] == format
    ensures forall i :: 0 <= i < |r| - |format| - 1 ==> r[i] != '.'
    ensures r[..|r| - |format| - 1] == NormaliseStem(sanitize(FileNameSource(title, symbol, date)))
  {
    var stem := NormaliseStem(sanitize(FileNameSource(title, symbol, date)));
    FileNameParts(stem, format);
    stem + "." + format
  }

  /** A stem followed by '.' and the format splits back into the two at the first '.'. */
  lemma FileNameParts(stem: string, format: string)
    requires IsStem(stem)
    ensures var r := stem + "." + format;
            |r| - |format| - 1 == |stem| &&
            r[..|stem|] == stem && r[|stem|] == '.' && r[|stem| + 1..] == format &&
            forall i :: 0 <= i < |stem| ==> r[i] != '.'
  {
    var r := stem + "." + format;
    assert forall i :: 0 <= i < |stem| ==> r[i] == stem[i] && Allowed(stem[i]);
  }

  /** A falsy title or symbol is named "chart" or "unknown" in the file name. */
  lemma FileNameDefaults(title: Option<string>, symbol: Option<string>, date: string,
                         sanitize: string -> string, format: string)
    ensures IsFalsy(title) ==>
              GenerateFileName(title, symbol, date, sanitize, format) ==
              GenerateFileName(Some("chart"), symbol, date, sanitize, format)
    ensures IsFalsy(symbol) ==>
              GenerateFileName(title, symbol, date, sanitize, format) ==
              GenerateFileName(title, Some("unknown"), date, sanitize, format)
    ensures IsFalsy(title) ==> FileNameSource(title, symbol, date)[..6] == "chart_"
  {
    assert !IsFalsy(Some("chart")) && !IsFalsy(Some("unknown"));
    if IsFalsy(title) {
      assert FileNameSource(title, symbol, date) == FileNameSource(Some("chart"), symbol, date);
      assert ("chart" + "_" + OrDefault(symbol, "unknown") + "_" + date)[..6] == "chart_";
    }
    if IsFalsy(symbol) {
      assert FileNameSource(title, symbol, date) == FileNameSource(title, Some("unknown"), date);
    }
  }
}
