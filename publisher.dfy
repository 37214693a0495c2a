/**
 `updateDiagnostics`: the extension's one diagnostic collection is cleared,
 the declared names are gathered once, and every document to scan is
 dispatched on its language: Go files to the `os.Getenv` scan, TypeScript
 and JavaScript files to the `process.env` scan. A document in any other
 language gets no entry at all.
 */
module Publisher {
  import opened Wrappers
  import opened Scanner
  import opened Validator
  import EnvStore

  /** The scan a language is dispatched to, if any. */
  function LanguagePattern(languageId: string): (p: Option<Pattern>)
    ensures p == Some(GoPattern) <==> languageId == "go"
    ensures p == Some(TsNodePattern) <==> languageId == "typescript" || languageId == "javascript"
    ensures p.None? <==> languageId != "go" && languageId != "typescript" && languageId != "javascript"
  {
    if languageId == "go" then Some(GoPattern)
    else if languageId == "typescript" || languageId == "javascript" then Some(TsNodePattern)
    else None
  }

  /**
   The documents to scan: the document opened for `docUri` when one is
   given, otherwise every text document the workspace has open.
   */
  function DocumentsToScan(requested: Option<Document>, textDocuments: seq<Document>): (docs: seq<Document>)
    ensures requested.Some? ==> docs == [requested.value]
    ensures requested.None? ==> docs == textDocuments
  {
    if requested.Some? then [requested.value] else textDocuments
  }

  /** What the dispatch produces for one document: its scan, if its language has one. */
  function Scan(envVars: set<string>, document: Document): (r: Option<seq<Diagnostic>>)
    ensures r.Some? <==> document.languageId in {"go", "typescript", "javascript"}
  {
    match LanguagePattern(document.languageId)
    case None => None
    case Some(p) => Some(Validate(p, document.text, envVars, document.uri))
  }

  /**
   The entries of an empty collection after setting, in order, each
   document's result under `scan` where it has one: a later document with
   the same URI replaces an earlier one.
   */
  function Collect(docs: seq<Document>, scan: Document -> Option<seq<Diagnostic>>): map<Uri, seq<Diagnostic>>
  {
    if docs == [] then map[]
    else
      var entries := Collect(docs[..|docs| - 1], scan);
      var document := docs[|docs| - 1];
      match scan(document)
      case None => entries
      case Some(diagnostics) => entries[document.uri := diagnostics]
  }

  /** The collection's entries after `updateDiagnostics` has scanned `docs`. */
  function Published(docs: seq<Document>, envVars: set<string>): map<Uri, seq<Diagnostic>>
  {
    Collect(docs, (document: Document) => Scan(envVars, document))
  }

  /** The extension's `DiagnosticCollection`: the diagnostics shown for each document. */
  class DiagnosticCollection {
    var entries: map<Uri, seq<Diagnostic>>

    constructor()
      ensures entries == map[]
    {
      entries := map[];
    }

    /** `diagnosticCollection.clear()`. */
    method Clear()
      modifies this
      ensures entries == map[]
    {
      entries := map[];
    }

    /** `diagnosticCollection.set(uri, diagnostics)`: replaces that document's entry. */
    method Set(uri: Uri, diagnostics: seq<Diagnostic>)
      modifies this
      ensures entries == old(entries)[uri := diagnostics]
    {
      entries := entries[uri := diagnostics];
    }
  }

  /**
   `updateDiagnostics`. The keys of each `.env*` file (`envFiles`) and the
   document opened for `docUri` (`requested`) are given as inputs.
   */
  method UpdateDiagnostics(collection: DiagnosticCollection, envFiles: seq<seq<string>>,
                           requested: Option<Document>, textDocuments: seq<Document>)
    modifies collection
    ensures collection.entries == Published(DocumentsToScan(requested, textDocuments), EnvStore.DeclaredNames(envFiles))
  {
    collection.Clear();
    var envVars := EnvStore.GetDefinedEnvVars(envFiles);
    var documentsToScan := if requested.Some? then [requested.value] else textDocuments;
    for i := 0 to |documentsToScan|
      invariant collection.entries == Published(documentsToScan[..i], envVars)
    {
      var document := documentsToScan[i];
      PublishedStep(documentsToScan, i, envVars);
      var diagnostics: seq<Diagnostic> := [];
      if document.languageId == "go" {
        var found := UpdateGoDiagnostics(document, envVars);
        diagnostics := diagnostics + found;
        assert diagnostics == found;
        collection.Set(document.uri, diagnostics);
      }
      if document.languageId == "typescript" || document.languageId == "javascript" {
        var found := UpdateTsNodeDiagnostics(document, envVars);
        diagnostics := diagnostics + found;
        assert diagnostics == found;
        collection.Set(document.uri, diagnostics);
      }
    }
    assert documentsToScan[..|documentsToScan|] == documentsToScan;
  }

  /** Scanning one more document sets at most its own entry. */
  lemma CollectStep(docs: seq<Document>, i: nat, scan: Document -> Option<seq<Diagnostic>>)
    requires i < |docs|
    ensures Collect(docs[..i + 1], scan) ==
      match scan(docs[i])
      case None => Collect(docs[..i], scan)
      case Some(diagnostics) => Collect(docs[..i], scan)[docs[i].uri := diagnostics]
  {
    assert docs[..i + 1][..i] == docs[..i];
  }

  /** A URI has an entry exactly when some document with that URI has a result. */
  lemma {:induction false} CollectKeys(docs: seq<Document>, scan: Document -> Option<seq<Diagnostic>>)
    ensures forall uri :: uri in Collect(docs, scan) <==>
      exists i :: 0 <= i < |docs| && docs[i].uri == uri && scan(docs[i]).Some?
  {
    if docs != [] {
      var init := docs[..|docs| - 1];
      CollectKeys(init, scan);
      forall uri ensures uri in Collect(docs, scan) <==>
        exists i :: 0 <= i < |docs| && docs[i].uri == uri && scan(docs[i]).Some?
      {
        if uri in Collect(docs, scan) && uri !in Collect(init, scan) {
          assert docs[|docs| - 1].uri == uri && scan(docs[|docs| - 1]).Some?;
        }
        if uri in Collect(init, scan) {
          var i :| 0 <= i < |init| && init[i].uri == uri && scan(init[i]).Some?;
          assert docs[i] == init[i];
        }
        if exists i :: 0 <= i < |docs| && docs[i].uri == uri && scan(docs[i]).Some? {
          var i :| 0 <= i < |docs| && docs[i].uri == uri && scan(docs[i]).Some?;
          if i < |init| {
            assert init[i] == docs[i];
          }
        }
      }
    }
  }

  /** Each entry is the result of the last document with that URI that has one. */
  lemma {:induction false} CollectEntry(docs: seq<Document>, scan: Document -> Option<seq<Diagnostic>>, uri: Uri)
    returns (i: nat)
    requires uri in Collect(docs, scan)
    ensures i < |docs| && docs[i].uri == uri && scan(docs[i]).Some?
    ensures forall j :: i < j < |docs| && docs[j].uri == uri ==> scan(docs[j]).None?
    ensures Collect(docs, scan)[uri] == scan(docs[i]).value
  {
    var init := docs[..|docs| - 1];
    var document := docs[|docs| - 1];
    if document.uri == uri && scan(document).Some? {
      i := |docs| - 1;
    } else {
      i := CollectEntry(init, scan, uri);
      assert docs[i] == init[i];
      forall j | i < j < |docs| && docs[j].uri == uri
        ensures scan(docs[j]).None?
      {
        if j < |init| {
          assert docs[j] == init[j];
        }
      }
    }
  }

  /** `document` is one the dispatch scans. */
  predicate Supported(document: Document) {
    LanguagePattern(document.languageId).Some?
  }

  /** Scanning one more document sets at most its own entry, to its scan. */
  lemma PublishedStep(docs: seq<Document>, i: nat, envVars: set<string>)
    requires i < |docs|
    ensures Published(docs[..i + 1], envVars) ==
      match LanguagePattern(docs[i].languageId)
      case None => Published(docs[..i], envVars)
      case Some(p) => Published(docs[..i], envVars)[docs[i].uri := Validate(p, docs[i].text, envVars, docs[i].uri)]
  {
    CollectStep(docs, i, (document: Document) => Scan(envVars, document));
  }

  /** A document has an entry exactly when some scanned document with its URI is supported. */
  lemma PublishedKeys(docs: seq<Document>, envVars: set<string>)
    ensures forall uri :: uri in Published(docs, envVars) <==>
      exists i :: 0 <= i < |docs| && docs[i].uri == uri && Supported(docs[i])
  {
    CollectKeys(docs, (document: Document) => Scan(envVars, document));
  }

  /**
   Each entry holds the scan of the last supported document with that URI,
   with the scan its language is dispatched to.
   */
  lemma PublishedEntry(docs: seq<Document>, envVars: set<string>, uri: Uri) returns (i: nat)
    requires uri in Published(docs, envVars)
    ensures i < |docs| && docs[i].uri == uri && Supported(docs[i])
    ensures forall j :: i < j < |docs| && docs[j].uri == uri ==> !Supported(docs[j])
    ensures Published(docs, envVars)[uri] ==
      Validate(LanguagePattern(docs[i].languageId).value, docs[i].text, envVars, uri)
  {
    i := CollectEntry(docs, (document: Document) => Scan(envVars, document), uri);
  }

  /** No published warning names a declared variable; each flags a reference in its own document. */
  lemma PublishedUndeclared(docs: seq<Document>, envVars: set<string>, uri: Uri, d: Diagnostic)
    requires uri in Published(docs, envVars) && d in Published(docs, envVars)[uri]
    ensures exists i :: 0 <= i < |docs| && docs[i].uri == uri && Supported(docs[i]) &&
                        Flags(LanguagePattern(docs[i].languageId).value, docs[i].text, envVars, uri, d)
  {
    var i := PublishedEntry(docs, envVars, uri);
    ValidatedFlags(LanguagePattern(docs[i].languageId).value, docs[i].text, envVars, uri, d);
  }

  /**
   When the scanned documents have distinct URIs, each supported document's
   entry is exactly its own scan, and unsupported ones have none.
   */
  lemma PublishedDistinct(docs: seq<Document>, envVars: set<string>, i: nat)
    requires i < |docs|
    requires forall j, k :: 0 <= j < k < |docs| ==> docs[j].uri != docs[k].uri
    ensures docs[i].languageId == "go" ==>
      docs[i].uri in Published(docs, envVars) &&
      Published(docs, envVars)[docs[i].uri] == Validate(GoPattern, docs[i].text, envVars, docs[i].uri)
    ensures docs[i].languageId == "typescript" || docs[i].languageId == "javascript" ==>
      docs[i].uri in Published(docs, envVars) &&
      Published(docs, envVars)[docs[i].uri] == Validate(TsNodePattern, docs[i].text, envVars, docs[i].uri)
    ensures !Supported(docs[i]) ==> docs[i].uri !in Published(docs, envVars)
  {
    PublishedKeys(docs, envVars);
    if Supported(docs[i]) {
      var j := PublishedEntry(docs, envVars, docs[i].uri);
    }
  }
}
