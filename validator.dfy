/**
 The diagnostics the extension publishes: for every reference to a variable
 that no `.env*` file declares, one warning whose span covers the name only
 (`updateTsNodeDiagnostics`, `updateGoDiagnostics`).
 Spans are character offsets; the editor's conversion to line and column
 (`document.positionAt`) is not modelled.
 */
module Validator {
  import opened Wrappers
  import opened Scanner
  import EnvStore

  type Uri = string

  datatype Severity = Error | Warning | Information | Hint

  /** A range of offsets `[start, end)` in the scanned text. */
  datatype Span = Span(start: int, end: int)

  /** `diagnostic.code`: the variable name and the document it was found in. */
  datatype Code = Code(value: string, target: Uri)

  datatype Diagnostic = Diagnostic(range: Span, message: string, severity: Severity, code: Option<Code>)

  /** An open text document: `document.uri`, `document.languageId`, `document.getText()`. */
  datatype Document = Document(uri: Uri, languageId: string, text: string)

  function NotDefinedMessage(name: string): string {
    name + " is not defined in any .env file"
  }

  /** The warning both scanners build for one match. */
  function ToDiagnostic(p: Pattern, m: Match, uri: Uri): (d: Diagnostic)
    ensures m.length == |p.prefix| + |m.name| + |p.suffix| ==> d.range.end - d.range.start == |m.name|
  {
    Diagnostic(Span(m.index + |p.prefix|, m.index + m.length - |p.suffix|),
               NotDefinedMessage(m.name), Warning, Some(Code(m.name, uri)))
  }

  /** The warnings for the matches `ms`, in their order, skipping declared names. */
  function Report(p: Pattern, ms: seq<Match>, envVars: set<string>, uri: Uri): (ds: seq<Diagnostic>)
    ensures |ds| <= |ms|
  {
    if ms == [] then []
    else (if ms[0].name in envVars then [] else [ToDiagnostic(p, ms[0], uri)]) + Report(p, ms[1..], envVars, uri)
  }

  /** Everything the scan of `text` with `p` reports. */
  function Validate(p: Pattern, text: string, envVars: set<string>, uri: Uri): (ds: seq<Diagnostic>)
    ensures |ds| <= |Matches(p, text, 0)| <= |text|
  {
    MatchesBound(p, text, 0);
    Report(p, Matches(p, text, 0), envVars, uri)
  }

  /**
   `d` flags an undeclared reference in `text`: a warning with the fixed
   message, carrying the name and the document as its code, whose span is
   exactly the name: a maximal non-empty run of name characters preceded by
   the pattern's prefix and followed by its suffix.
   */
  ghost predicate Flags(p: Pattern, text: string, envVars: set<string>, uri: Uri, d: Diagnostic) {
    d.code.Some? && d.code.value.target == uri && d.severity == Warning &&
    (var name, start, end := d.code.value.value, d.range.start, d.range.end;
     name !in envVars && d.message == NotDefinedMessage(name) &&
     |p.prefix| <= start < end <= |text| &&
     text[start..end] == name &&
     LiteralAt(text, start - |p.prefix|, p.prefix) &&
     (forall j :: start <= j < end ==> IsNameChar(text[j])) &&
     LiteralAt(text, end, p.suffix) &&
     (end == |text| || !IsNameChar(text[end])))
  }

  /** The diagnostic built for an undeclared match flags it. */
  lemma MatchFlagged(p: Pattern, text: string, envVars: set<string>, uri: Uri, m: Match)
    requires IsMatch(p, text, m) && m.name !in envVars
    ensures Flags(p, text, envVars, uri, ToDiagnostic(p, m, uri))
  {
    MatchAtShape(p, text, m.index);
  }

  /** A warning is reported exactly for each match whose name is undeclared. */
  lemma {:induction false} ReportCorrespondence(p: Pattern, ms: seq<Match>, envVars: set<string>, uri: Uri)
    ensures forall d :: d in Report(p, ms, envVars, uri) <==>
      exists k :: 0 <= k < |ms| && ms[k].name !in envVars && d == ToDiagnostic(p, ms[k], uri)
  {
    if ms != [] {
      ReportCorrespondence(p, ms[1..], envVars, uri);
      forall d | d in Report(p, ms, envVars, uri)
        ensures exists k :: 0 <= k < |ms| && ms[k].name !in envVars && d == ToDiagnostic(p, ms[k], uri)
      {
        if d !in Report(p, ms[1..], envVars, uri) {
          assert d == ToDiagnostic(p, ms[0], uri);
        } else {
          var k :| 0 <= k < |ms[1..]| && ms[1..][k].name !in envVars && d == ToDiagnostic(p, ms[1..][k], uri);
          assert ms[k + 1] == ms[1..][k];
        }
      }
      forall k | 0 <= k < |ms| && ms[k].name !in envVars
        ensures ToDiagnostic(p, ms[k], uri) in Report(p, ms, envVars, uri)
      {
        if k > 0 {
          assert ms[1..][k - 1] == ms[k];
        }
      }
    }
  }

  /** A warning is reported exactly for each visited match whose name is undeclared. */
  lemma ValidateCorrespondence(p: Pattern, text: string, envVars: set<string>, uri: Uri)
    ensures forall d :: d in Validate(p, text, envVars, uri) <==>
      exists m :: m in Matches(p, text, 0) && m.name !in envVars && d == ToDiagnostic(p, m, uri)
  {
    var ms := Matches(p, text, 0);
    ReportCorrespondence(p, ms, envVars, uri);
    forall d ensures d in Report(p, ms, envVars, uri) <==>
      exists m :: m in ms && m.name !in envVars && d == ToDiagnostic(p, m, uri)
    {
      if exists m :: m in ms && m.name !in envVars && d == ToDiagnostic(p, m, uri) {
        var m :| m in ms && m.name !in envVars && d == ToDiagnostic(p, m, uri);
        var k :| 0 <= k < |ms| && ms[k] == m;
      }
    }
  }

  /** The visited matches never overlap and come in text order. */
  ghost predicate InScanOrder(ms: seq<Match>) {
    forall k, l :: 0 <= k < l < |ms| ==> ms[k].index + ms[k].length <= ms[l].index
  }

  /** Each warning's span ends before the next one's starts. */
  ghost predicate InTextOrder(ds: seq<Diagnostic>) {
    forall i, j :: 0 <= i < j < |ds| ==> ds[i].range.end < ds[j].range.start
  }

  /** Warnings come out in scan order: each one's span ends before the next one's starts. */
  lemma {:induction false} ReportInScanOrder(p: Pattern, ms: seq<Match>, envVars: set<string>, uri: Uri)
    requires |p.prefix| > 0 && InScanOrder(ms)
    ensures InTextOrder(Report(p, ms, envVars, uri))
  {
    if ms != [] {
      var rest := Report(p, ms[1..], envVars, uri);
      assert InScanOrder(ms[1..]) by {
        forall k, l | 0 <= k < l < |ms[1..]|
          ensures ms[1..][k].index + ms[1..][k].length <= ms[1..][l].index
        {
          assert ms[1..][k] == ms[k + 1] && ms[1..][l] == ms[l + 1];
        }
      }
      ReportInScanOrder(p, ms[1..], envVars, uri);
      ReportCorrespondence(p, ms[1..], envVars, uri);
      var ds := Report(p, ms, envVars, uri);
      if ms[0].name in envVars {
        assert ds == rest;
      } else {
        var d0 := ToDiagnostic(p, ms[0], uri);
        assert ds == [d0] + rest;
        forall j | 0 <= j < |rest|
          ensures d0.range.end < rest[j].range.start
        {
          assert rest[j] in rest;
          var k :| 0 <= k < |ms[1..]| && ms[1..][k].name !in envVars && rest[j] == ToDiagnostic(p, ms[1..][k], uri);
          assert ms[1..][k] == ms[k + 1];
        }
        forall i, j | 0 <= i < j < |ds|
          ensures ds[i].range.end < ds[j].range.start
        {
          assert ds[j] == rest[j - 1];
          if i > 0 {
            assert ds[i] == rest[i - 1];
          }
        }
      }
    }
  }

  /** A reported warning flags an undeclared reference. */
  lemma ValidatedFlags(p: Pattern, text: string, envVars: set<string>, uri: Uri, d: Diagnostic)
    requires d in Validate(p, text, envVars, uri)
    ensures Flags(p, text, envVars, uri, d)
  {
    var ms := Matches(p, text, 0);
    ReportCorrespondence(p, ms, envVars, uri);
    var k :| 0 <= k < |ms| && ms[k].name !in envVars && d == ToDiagnostic(p, ms[k], uri);
    MatchesSound(p, text, 0, k);
    MatchFlagged(p, text, envVars, uri, ms[k]);
  }

  /** Every reported warning flags an undeclared reference; none names a declared variable. */
  lemma ValidateFlagsUndeclared(p: Pattern, text: string, envVars: set<string>, uri: Uri)
    ensures forall d :: d in Validate(p, text, envVars, uri) ==> Flags(p, text, envVars, uri, d)
  {
    forall d | d in Validate(p, text, envVars, uri)
      ensures Flags(p, text, envVars, uri, d)
    {
      ValidatedFlags(p, text, envVars, uri, d);
    }
  }

  /** The scan reports in text order, without overlaps. */
  lemma ValidateInScanOrder(p: Pattern, text: string, envVars: set<string>, uri: Uri)
    requires |p.prefix| > 0
    ensures InTextOrder(Validate(p, text, envVars, uri))
  {
    var ms := Matches(p, text, 0);
    forall k, l | 0 <= k < l < |ms|
      ensures ms[k].index + ms[k].length <= ms[l].index
    {
      MatchesOrdered(p, text, 0, k, l);
    }
    ReportInScanOrder(p, ms, envVars, uri);
  }

  /** Reporting a list of matches that starts with `m`, after `reported`. */
  lemma ReportCons(p: Pattern, ms: seq<Match>, m: Match, rest: seq<Match>, envVars: set<string>, uri: Uri,
                   reported: seq<Diagnostic>, total: seq<Diagnostic>)
    requires ms == [m] + rest && reported + Report(p, ms, envVars, uri) == total
    ensures m.name in envVars ==> reported + Report(p, rest, envVars, uri) == total
    ensures m.name !in envVars ==> (reported + [ToDiagnostic(p, m, uri)]) + Report(p, rest, envVars, uri) == total
  {
    assert ms[0] == m && ms[1..] == rest;
    var later := Report(p, rest, envVars, uri);
    if m.name in envVars {
      assert [] + later == later;
    } else {
      assert (reported + [ToDiagnostic(p, m, uri)]) + later == reported + ([ToDiagnostic(p, m, uri)] + later);
    }
  }

  /** One more `exec` that finds `m`: its warning, if any, moves to the reported ones. */
  lemma ScanStep(p: Pattern, text: string, from: nat, m: Match, envVars: set<string>, uri: Uri,
                 reported: seq<Diagnostic>, total: seq<Diagnostic>, reported': seq<Diagnostic>, next: nat)
    requires Exec(p, text, from) == Some(m) && next == m.index + m.length
    requires reported + Report(p, Matches(p, text, from), envVars, uri) == total
    requires reported' == if m.name in envVars then reported else reported + [ToDiagnostic(p, m, uri)]
    ensures reported' + Report(p, Matches(p, text, next), envVars, uri) == total
  {
    MatchesUnfold(p, text, from, next);
    ReportCons(p, Matches(p, text, from), m, Matches(p, text, next), envVars, uri, reported, total);
  }

  /** Once `exec` finds nothing, everything has been reported. */
  lemma ScanDone(p: Pattern, text: string, from: nat, envVars: set<string>, uri: Uri,
                 reported: seq<Diagnostic>, total: seq<Diagnostic>)
    requires Exec(p, text, from).None?
    requires reported + Report(p, Matches(p, text, from), envVars, uri) == total
    ensures reported == total
  {
    assert Matches(p, text, from) == [];
    assert reported + [] == reported;
  }

  /**
   The body of both `while ((match = regex.exec(text)) !== null)` loops:
   push one warning per match whose name `envVars` lacks, resuming each
   search at the end of the previous match.
   */
  method ScanDiagnostics(p: Pattern, text: string, envVars: set<string>, uri: Uri)
    returns (diagnostics: seq<Diagnostic>)
    ensures diagnostics == Validate(p, text, envVars, uri)
  {
    diagnostics := [];
    var lastIndex: nat := 0;
    var next := Exec(p, text, lastIndex);
    ghost var total := Validate(p, text, envVars, uri);
    assert diagnostics + total == total;
    while next.Some?
      invariant next == Exec(p, text, lastIndex)
      invariant diagnostics + Report(p, Matches(p, text, lastIndex), envVars, uri) == total
      decreases |text| - lastIndex
    {
      var m := next.value;
      ghost var from, reported := lastIndex, diagnostics;
      if m.name !in envVars {
        diagnostics := diagnostics + [ToDiagnostic(p, m, uri)];
      }
      lastIndex := m.index + m.length;
      ScanStep(p, text, from, m, envVars, uri, reported, total, diagnostics, lastIndex);
      next := Exec(p, text, lastIndex);
    }
    ScanDone(p, text, lastIndex, envVars, uri, diagnostics, total);
  }

  /**
   `updateTsNodeDiagnostics`: the warnings for `process.env.NAME`; each span
   is `[match.index + 12, match.index + match[0].length)`.
   */
  method UpdateTsNodeDiagnostics(document: Document, envVars: set<string>) returns (diagnostics: seq<Diagnostic>)
    ensures diagnostics == Validate(TsNodePattern, document.text, envVars, document.uri)
    ensures forall d :: d in diagnostics ==> Flags(TsNodePattern, document.text, envVars, document.uri, d)
    ensures forall d :: d in diagnostics <==>
      exists m :: m in Matches(TsNodePattern, document.text, 0) && m.name !in envVars &&
        d == Diagnostic(Span(m.index + 12, m.index + m.length), NotDefinedMessage(m.name), Warning, Some(Code(m.name, document.uri)))
    ensures InTextOrder(diagnostics)
  {
    diagnostics := ScanDiagnostics(TsNodePattern, document.text, envVars, document.uri);
    ValidateFlagsUndeclared(TsNodePattern, document.text, envVars, document.uri);
    ValidateInScanOrder(TsNodePattern, document.text, envVars, document.uri);
    ValidateCorrespondence(TsNodePattern, document.text, envVars, document.uri);
    forall m: Match
      ensures ToDiagnostic(TsNodePattern, m, document.uri) ==
        Diagnostic(Span(m.index + 12, m.index + m.length), NotDefinedMessage(m.name), Warning, Some(Code(m.name, document.uri)))
    {
    }
  }

  /**
   `updateGoDiagnostics`: the warnings for `os.Getenv("NAME")`; each span is
   `[match.index + 11, match.index + match[0].length - 2)`, the name without
   its quotes and parenthesis.
   */
  method UpdateGoDiagnostics(document: Document, envVars: set<string>) returns (diagnostics: seq<Diagnostic>)
    ensures diagnostics == Validate(GoPattern, document.text, envVars, document.uri)
    ensures forall d :: d in diagnostics ==> Flags(GoPattern, document.text, envVars, document.uri, d)
    ensures forall d :: d in diagnostics <==>
      exists m :: m in Matches(GoPattern, document.text, 0) && m.name !in envVars &&
        d == Diagnostic(Span(m.index + 11, m.index + m.length - 2), NotDefinedMessage(m.name), Warning, Some(Code(m.name, document.uri)))
    ensures InTextOrder(diagnostics)
  {
    diagnostics := ScanDiagnostics(GoPattern, document.text, envVars, document.uri);
    ValidateFlagsUndeclared(GoPattern, document.text, envVars, document.uri);
    ValidateInScanOrder(GoPattern, document.text, envVars, document.uri);
    ValidateCorrespondence(GoPattern, document.text, envVars, document.uri);
    forall m: Match
      ensures ToDiagnostic(GoPattern, m, document.uri) ==
        Diagnostic(Span(m.index + 11, m.index + m.length - 2), NotDefinedMessage(m.name), Warning, Some(Code(m.name, document.uri)))
    {
    }
  }
}
