/**
 Worked examples: the extension's two tests and further examples of the
 scan, the dispatch and the quick fix, each proved about its literal text.
 The first half holds the generic facts these proofs are assembled from:
 when a text is a prefix, a name and a suffix put together, the scan finds
 that name there, and characters that cannot start the prefix are skipped.
 */
module Scenarios {
  import opened Wrappers
  import opened Scanner
  import opened Validator
  import opened Publisher
  import EnvStore
  import EnvFix

  // ---------------------------------------------------------------------
  // Finding a reference in a text built from known parts
  // ---------------------------------------------------------------------

  /** Every character of `s` from offset `j` on is a name character. */
  predicate NameCharsFrom(s: string, j: nat)
    decreases |s| - j
  {
    j >= |s| || (IsNameChar(s[j]) && NameCharsFrom(s, j + 1))
  }

  lemma {:induction false} NameCharsFromAll(s: string, j: nat)
    requires NameCharsFrom(s, j)
    decreases |s| - j
    ensures forall k :: j <= k < |s| ==> IsNameChar(s[k])
  {
    if j < |s| {
      NameCharsFromAll(s, j + 1);
    }
  }

  /** `lit` matches `text` at `i`, ignoring case, from the literal's character `j` on. */
  predicate FoldsFrom(text: string, lit: string, i: nat, j: nat)
    decreases |lit| - j
  {
    if j >= |lit| then i + |lit| <= |text|
    else i + j < |text| && FoldEq(text[i + j], lit[j]) && FoldsFrom(text, lit, i, j + 1)
  }

  lemma {:induction false} FoldsFromAll(text: string, lit: string, i: nat, j: nat)
    requires FoldsFrom(text, lit, i, j)
    decreases |lit| - j
    ensures i + |lit| <= |text|
    ensures forall k :: j <= k < |lit| ==> FoldEq(text[i + k], lit[k])
  {
    if j < |lit| {
      FoldsFromAll(text, lit, i, j + 1);
    }
  }

  lemma FoldsFromLiteralAt(text: string, lit: string, i: nat)
    requires FoldsFrom(text, lit, i, 0)
    ensures LiteralAt(text, i, lit)
  {
    FoldsFromAll(text, lit, i, 0);
    LiteralAtIff(text, i, lit);
    forall k | i <= k < i + |lit|
      ensures FoldEq(text[k], lit[k - i])
    {
      assert text[k] == text[i + (k - i)];
    }
  }

  lemma {:induction false} FoldsFromItself(s: string, j: nat)
    decreases |s| - j
    ensures FoldsFrom(s, s, 0, j)
  {
    if j < |s| {
      FoldsFromItself(s, j + 1);
    }
  }

  /** A literal that occurs exactly at `i` also occurs there ignoring case. */
  lemma LiteralAtSlice(text: string, i: nat, lit: string)
    requires i + |lit| <= |text| && text[i..i + |lit|] == lit
    ensures LiteralAt(text, i, lit)
  {
    LiteralAtIff(text, i, lit);
    forall k | i <= k < i + |lit|
      ensures FoldEq(text[k], lit[k - i])
    {
      assert text[k] == text[i..i + |lit|][k - i];
    }
  }

  /** A literal found at the start of `w` is found wherever `w` occurs. */
  lemma LiteralAtTransfer(text: string, i: nat, w: string, lit: string)
    requires i + |w| <= |text| && text[i..i + |w|] == w && LiteralAt(w, 0, lit)
    ensures LiteralAt(text, i, lit)
  {
    LiteralAtIff(w, 0, lit);
    LiteralAtIff(text, i, lit);
    forall k | i <= k < i + |lit|
      ensures FoldEq(text[k], lit[k - i])
    {
      assert text[k] == w[k - i];
    }
  }

  /** A run of exactly `n` name characters followed by something else has length `n`. */
  lemma {:induction false} NameRunExact(text: string, i: nat, n: nat)
    requires i + n <= |text|
    requires forall k :: i <= k < i + n ==> IsNameChar(text[k])
    requires i + n == |text| || !IsNameChar(text[i + n])
    decreases n
    ensures NameRun(text, i) == n
  {
    if n > 0 {
      NameRunExact(text, i + 1, n - 1);
    }
  }

  /** The pattern matches at `i` when the text there is its prefix, a maximal run of `n > 0` name characters, and its suffix. */
  lemma MatchAtParts(p: Pattern, text: string, i: nat, n: nat)
    requires LiteralAt(text, i, p.prefix)
    requires var start := i + |p.prefix|;
      0 < n && start + n <= |text| &&
      (forall k :: start <= k < start + n ==> IsNameChar(text[k])) &&
      (start + n == |text| || !IsNameChar(text[start + n])) &&
      LiteralAt(text, start + n, p.suffix)
    ensures MatchAt(p, text, i) == Some(|p.prefix| + n + |p.suffix|)
  {
    NameRunExact(text, i + |p.prefix|, n);
  }

  /** A search that starts where the pattern matches returns that match. */
  lemma ExecAt(p: Pattern, text: string, i: nat, n: nat)
    requires MatchAt(p, text, i) == Some(n)
    ensures Exec(p, text, i) == Some(Match(i, n, text[i + |p.prefix|..i + n - |p.suffix|]))
  {
  }

  /**
   A search from `i` finds `name` when the text at `i` is the prefix (in any
   case), then `name`, then the suffix, and no name character follows.
   */
  lemma ReferenceAt(p: Pattern, text: string, i: nat, name: string)
    requires WellFormed(p)
    requires name != [] && NameCharsFrom(name, 0)
    requires var start := i + |p.prefix|;
      var end := start + |name|;
      end + |p.suffix| <= |text| &&
      LiteralAt(text, i, p.prefix) && text[start..end] == name && text[end..end + |p.suffix|] == p.suffix &&
      (p.suffix == [] && end < |text| ==> !IsNameChar(text[end]))
    ensures Exec(p, text, i) == Some(Match(i, |p.prefix| + |name| + |p.suffix|, name))
  {
    var start := i + |p.prefix|;
    var end := start + |name|;
    assert forall k :: start <= k < end ==> IsNameChar(text[k]) by {
      NameCharsFromAll(name, 0);
      forall k | start <= k < end
        ensures IsNameChar(text[k])
      {
        assert text[k] == text[start..end][k - start];
      }
    }
    assert end == |text| || !IsNameChar(text[end]) by {
      if p.suffix != [] {
        assert text[end] == text[end..end + |p.suffix|][0];
      }
    }
    assert LiteralAt(text, end, p.suffix) by {
      LiteralAtSlice(text, end, p.suffix);
    }
    MatchAtParts(p, text, i, |name|);
    ExecAt(p, text, i, |p.prefix| + |name| + |p.suffix|);
  }

  /**
   `text` is `before`, then `written` (the prefix as the text spells it,
   in any case), then `name`, the suffix and `after`: a search from the end
   of `before` finds `name`.
   */
  lemma ReferenceIn(p: Pattern, text: string, before: string, written: string, name: string, after: string)
    requires WellFormed(p)
    requires |written| == |p.prefix| && FoldsFrom(written, p.prefix, 0, 0)
    requires name != [] && NameCharsFrom(name, 0)
    requires p.suffix == [] && after != [] ==> !IsNameChar(after[0])
    requires text == before + written + name + p.suffix + after
    ensures Exec(p, text, |before|) == Some(Match(|before|, |p.prefix| + |name| + |p.suffix|, name))
  {
    var i, start := |before|, |before| + |p.prefix|;
    var end := start + |name|;
    assert LiteralAt(text, i, p.prefix) by {
      assert text[i..start] == written;
      FoldsFromLiteralAt(written, p.prefix, 0);
      LiteralAtTransfer(text, i, written, p.prefix);
    }
    assert text[start..end] == name;
    assert text[end..end + |p.suffix|] == p.suffix;
    if p.suffix == [] && end < |text| {
      assert text[end] == after[0];
    }
    ReferenceAt(p, text, i, name);
  }

  /** The loop visits the reference `ReferenceIn` finds, then resumes right after it. */
  lemma ReferenceWrittenMatches(p: Pattern, text: string, before: string, written: string, name: string, after: string,
                                i: nat, n: nat, next: nat)
    requires WellFormed(p)
    requires |written| == |p.prefix| && FoldsFrom(written, p.prefix, 0, 0)
    requires name != [] && NameCharsFrom(name, 0)
    requires p.suffix == [] && after != [] ==> !IsNameChar(after[0])
    requires text == before + written + name + p.suffix + after
    requires i == |before| && n == |p.prefix| + |name| + |p.suffix| && next == i + n
    ensures Matches(p, text, i) == [Match(i, n, name)] + Matches(p, text, next)
  {
    assert Exec(p, text, i) == Some(Match(i, n, name)) by {
      ReferenceIn(p, text, before, written, name, after);
    }
    MatchesUnfold(p, text, i, next);
  }

  /** `ReferenceWrittenMatches` for a text that spells the prefix exactly. */
  lemma ReferenceInMatches(p: Pattern, text: string, before: string, name: string, after: string,
                           i: nat, n: nat, next: nat)
    requires WellFormed(p)
    requires name != [] && NameCharsFrom(name, 0)
    requires p.suffix == [] && after != [] ==> !IsNameChar(after[0])
    requires text == before + p.prefix + name + p.suffix + after
    requires i == |before| && n == |p.prefix| + |name| + |p.suffix| && next == i + n
    ensures Matches(p, text, i) == [Match(i, n, name)] + Matches(p, text, next)
  {
    FoldsFromItself(p.prefix, 0);
    ReferenceWrittenMatches(p, text, before, p.prefix, name, after, i, n, next);
  }

  /** No match starts at a character that does not fold to the prefix's first one. */
  lemma NoReferenceAt(p: Pattern, text: string, i: nat)
    requires i < |text| && |p.prefix| > 0 && !FoldEq(text[i], p.prefix[0])
    ensures Exec(p, text, i) == Exec(p, text, i + 1)
  {
  }

  lemma MatchesSkip(p: Pattern, text: string, from: nat)
    requires Exec(p, text, from) == Exec(p, text, from + 1)
    ensures Matches(p, text, from) == Matches(p, text, from + 1)
  {
  }

  lemma NoReferenceMatches(p: Pattern, text: string, i: nat)
    requires i < |text| && |p.prefix| > 0 && !FoldEq(text[i], p.prefix[0])
    ensures Matches(p, text, i) == Matches(p, text, i + 1)
  {
    NoReferenceAt(p, text, i);
    MatchesSkip(p, text, i);
  }

  /** A stretch where no character folds to the prefix's first one is skipped. */
  lemma {:induction false} NoReferenceBetween(p: Pattern, text: string, i: nat, j: nat)
    requires i <= j <= |text| && |p.prefix| > 0
    requires forall k :: i <= k < j ==> !FoldEq(text[k], p.prefix[0])
    decreases j - i
    ensures Matches(p, text, i) == Matches(p, text, j)
  {
    if i < j {
      NoReferenceMatches(p, text, i);
      NoReferenceBetween(p, text, i + 1, j);
    }
  }

  /** The loop stops at the end of the text. */
  lemma MatchesEnd(p: Pattern, text: string, from: nat)
    requires |text| <= from
    ensures Matches(p, text, from) == []
  {
  }

  /** The warnings for a text where the scan visits one match. */
  lemma ValidateOne(p: Pattern, text: string, m: Match, envVars: set<string>, uri: Uri)
    requires Matches(p, text, 0) == [m]
    ensures m.name !in envVars ==> Validate(p, text, envVars, uri) == [ToDiagnostic(p, m, uri)]
  {
    assert Validate(p, text, envVars, uri) == Report(p, [m], envVars, uri);
    assert [m][1..] == [];
    var d := ToDiagnostic(p, m, uri);
    if m.name !in envVars {
      assert Report(p, [m], envVars, uri) == [d] + Report(p, [], envVars, uri);
      assert [d] + [] == [d];
    }
  }

  /** The warnings for a text where the scan visits two matches. */
  lemma ValidateTwo(p: Pattern, text: string, m1: Match, m2: Match, envVars: set<string>, uri: Uri)
    requires Matches(p, text, 0) == [m1, m2]
    ensures m1.name in envVars && m2.name !in envVars ==>
      Validate(p, text, envVars, uri) == [ToDiagnostic(p, m2, uri)]
    ensures m1.name !in envVars && m2.name !in envVars ==>
      Validate(p, text, envVars, uri) == [ToDiagnostic(p, m1, uri), ToDiagnostic(p, m2, uri)]
  {
    var ms := [m1, m2];
    assert Validate(p, text, envVars, uri) == Report(p, ms, envVars, uri);
    assert ms[1..] == [m2] && [m2][1..] == [];
    var d1, d2 := ToDiagnostic(p, m1, uri), ToDiagnostic(p, m2, uri);
    if m2.name !in envVars {
      assert Report(p, [m2], envVars, uri) == [d2] + Report(p, [], envVars, uri);
      assert [d2] + [] == [d2];
      if m1.name in envVars {
        assert Report(p, ms, envVars, uri) == [] + [d2];
        assert [] + [d2] == [d2];
      } else {
        assert Report(p, ms, envVars, uri) == [d1] + [d2];
        assert [d1] + [d2] == [d1, d2];
      }
    }
  }

  /** `updateDiagnostics` for one supported document publishes exactly its scan. */
  lemma PublishedSingle(document: Document, envVars: set<string>)
    requires Supported(document)
    ensures Published([document], envVars) ==
      map[document.uri := Validate(LanguagePattern(document.languageId).value, document.text, envVars, document.uri)]
  {
    PublishedStep([document], 0, envVars);
    assert [document][..1] == [document] && [document][..0] == [];
  }

  // ---------------------------------------------------------------------
  // The test "getDefinedEnvVars": `.env` declares MY_VAR, `.env.local`
  // declares MY_OTHER_VAR
  // ---------------------------------------------------------------------

  lemma GetDefinedEnvVarsTest()
    ensures EnvStore.DeclaredNames([["MY_VAR"], ["MY_OTHER_VAR"]]) == {"MY_VAR", "MY_OTHER_VAR"}
    ensures |EnvStore.DeclaredNames([["MY_VAR"], ["MY_OTHER_VAR"]])| == 2
  {
    assert "MY_VAR" != "MY_OTHER_VAR";
  }

  // ---------------------------------------------------------------------
  // The test "updateDiagnostics": a TypeScript document
  // `process.env.MY_VAR process.env.MY_THIRD_VAR` with the two files above
  // ---------------------------------------------------------------------

  lemma UpdateTextFirstPart()
    ensures "process.env.MY_VAR process.env.MY_THIRD_VAR" ==
      "" + TsNodePattern.prefix + "MY_VAR" + TsNodePattern.suffix + " process.env.MY_THIRD_VAR"
  {
  }

  lemma UpdateTextSecondPart()
    ensures "process.env.MY_VAR process.env.MY_THIRD_VAR" ==
      "process.env.MY_VAR " + TsNodePattern.prefix + "MY_THIRD_VAR" + TsNodePattern.suffix + ""
  {
  }

  lemma UpdateTextFirst(text: string)
    requires text == "process.env.MY_VAR process.env.MY_THIRD_VAR"
    ensures Matches(TsNodePattern, text, 0) == [Match(0, 18, "MY_VAR")] + Matches(TsNodePattern, text, 18)
  {
    PatternsWellFormed();
    assert text == "" + TsNodePattern.prefix + "MY_VAR" + TsNodePattern.suffix + " process.env.MY_THIRD_VAR" by {
      UpdateTextFirstPart();
    }
    ReferenceInMatches(TsNodePattern, text, "", "MY_VAR", " process.env.MY_THIRD_VAR", 0, 18, 18);
  }

  lemma UpdateTextGap(text: string)
    requires text == "process.env.MY_VAR process.env.MY_THIRD_VAR"
    ensures Matches(TsNodePattern, text, 18) == Matches(TsNodePattern, text, 19)
  {
    assert text[18] == ' ';
    NoReferenceMatches(TsNodePattern, text, 18);
  }

  lemma UpdateTextSecond(text: string)
    requires text == "process.env.MY_VAR process.env.MY_THIRD_VAR"
    ensures Matches(TsNodePattern, text, 19) == [Match(19, 24, "MY_THIRD_VAR")]
  {
    PatternsWellFormed();
    assert text == "process.env.MY_VAR " + TsNodePattern.prefix + "MY_THIRD_VAR" + TsNodePattern.suffix + "" by {
      UpdateTextSecondPart();
    }
    ReferenceInMatches(TsNodePattern, text, "process.env.MY_VAR ", "MY_THIRD_VAR", "", 19, 24, 43);
    MatchesEnd(TsNodePattern, text, 43);
  }

  /** The loop visits both references, in order. */
  lemma UpdateTextMatches(text: string)
    requires text == "process.env.MY_VAR process.env.MY_THIRD_VAR"
    ensures Matches(TsNodePattern, text, 0) == [Match(0, 18, "MY_VAR"), Match(19, 24, "MY_THIRD_VAR")]
  {
    UpdateTextFirst(text);
    UpdateTextGap(text);
    UpdateTextSecond(text);
  }

  lemma UpdateTextValidate(text: string, envVars: set<string>, uri: Uri)
    requires text == "process.env.MY_VAR process.env.MY_THIRD_VAR"
    requires "MY_VAR" in envVars && "MY_THIRD_VAR" !in envVars
    ensures Validate(TsNodePattern, text, envVars, uri) == [ToDiagnostic(TsNodePattern, Match(19, 24, "MY_THIRD_VAR"), uri)]
  {
    UpdateTextMatches(text);
    ValidateTwo(TsNodePattern, text, Match(0, 18, "MY_VAR"), Match(19, 24, "MY_THIRD_VAR"), envVars, uri);
  }

  lemma UpdateTextWarning(uri: Uri)
    ensures ToDiagnostic(TsNodePattern, Match(19, 24, "MY_THIRD_VAR"), uri) ==
      Diagnostic(Span(31, 43), "MY_THIRD_VAR" + " is not defined in any .env file", Warning, Some(Code("MY_THIRD_VAR", uri)))
  {
  }

  /**
   After `updateDiagnostics` for that document, the collection holds one
   entry, for the document, with exactly one warning: MY_THIRD_VAR, with
   the test's message.
   */
  lemma UpdateDiagnosticsTest(text: string, uri: Uri)
    requires text == "process.env.MY_VAR process.env.MY_THIRD_VAR"
    ensures var envVars := EnvStore.DeclaredNames([["MY_VAR"], ["MY_OTHER_VAR"]]);
      var document := Document(uri, "typescript", text);
      Published(DocumentsToScan(Some(document), []), envVars) ==
        map[uri := [Diagnostic(Span(31, 43), "MY_THIRD_VAR" + " is not defined in any .env file", Warning,
                               Some(Code("MY_THIRD_VAR", uri)))]]
  {
    var envVars := EnvStore.DeclaredNames([["MY_VAR"], ["MY_OTHER_VAR"]]);
    var document := Document(uri, "typescript", text);
    assert "MY_VAR" in envVars && "MY_THIRD_VAR" !in envVars by {
      GetDefinedEnvVarsTest();
    }
    PublishedSingle(document, envVars);
    UpdateTextValidate(text, envVars, uri);
    UpdateTextWarning(uri);
  }

  // ---------------------------------------------------------------------
  // A Go document `os.Getenv("DB_HOST")` in a workspace without `.env*` files
  // ---------------------------------------------------------------------

  lemma GoTextParts()
    ensures "os.Getenv(\"DB_HOST\")" == "" + GoPattern.prefix + "DB_HOST" + GoPattern.suffix + ""
  {
  }

  lemma GoTextMatches(text: string)
    requires text == "os.Getenv(\"DB_HOST\")"
    ensures Matches(GoPattern, text, 0) == [Match(0, 20, "DB_HOST")]
  {
    PatternsWellFormed();
    assert text == "" + GoPattern.prefix + "DB_HOST" + GoPattern.suffix + "" by {
      GoTextParts();
    }
    ReferenceInMatches(GoPattern, text, "", "DB_HOST", "", 0, 20, 20);
    MatchesEnd(GoPattern, text, 20);
  }

  lemma GoTextValidate(text: string, envVars: set<string>, uri: Uri)
    requires text == "os.Getenv(\"DB_HOST\")"
    requires "DB_HOST" !in envVars
    ensures Validate(GoPattern, text, envVars, uri) == [ToDiagnostic(GoPattern, Match(0, 20, "DB_HOST"), uri)]
  {
    GoTextMatches(text);
    ValidateOne(GoPattern, text, Match(0, 20, "DB_HOST"), envVars, uri);
  }

  lemma GoTextWarning(uri: Uri)
    ensures ToDiagnostic(GoPattern, Match(0, 20, "DB_HOST"), uri) ==
      Diagnostic(Span(11, 18), "DB_HOST" + " is not defined in any .env file", Warning, Some(Code("DB_HOST", uri)))
  {
  }

  /**
   One warning, whose span is the name without the quotes; the quick fix then
   finds no file to add to and shows the error message.
   */
  lemma GoWithoutEnvFiles(text: string, uri: Uri)
    requires text == "os.Getenv(\"DB_HOST\")"
    ensures var document := Document(uri, "go", text);
      Published(DocumentsToScan(Some(document), []), EnvStore.DeclaredNames([])) ==
        map[uri := [Diagnostic(Span(11, 18), "DB_HOST" + " is not defined in any .env file", Warning, Some(Code("DB_HOST", uri)))]]
    ensures EnvFix.Fix("DB_HOST", [], None, map[]) == EnvFix.NoEnvFileFound
    ensures EnvFix.NotificationFor("DB_HOST", EnvFix.NoEnvFileFound) ==
      Some(EnvFix.ErrorMessage("No .env file found in the workspace."))
  {
    var document := Document(uri, "go", text);
    assert EnvStore.DeclaredNames([]) == {};
    PublishedSingle(document, {});
    GoTextValidate(text, {}, uri);
    GoTextWarning(uri);
  }

  // ---------------------------------------------------------------------
  // The quick fix against a single `.env` file
  // ---------------------------------------------------------------------

  /** A file that already has `API_KEY=` (empty value) is left as it is. */
  lemma AlreadyDeclaredUnchanged(file: Uri)
    ensures var contents := map[file := "API_KEY="];
      EnvFix.Fix("API_KEY", [file], None, contents) == EnvFix.AlreadyDeclared(file) &&
      EnvFix.Written(contents, EnvFix.AlreadyDeclared(file)) == contents
  {
    assert EnvFix.Includes("API_KEY=", "API_KEY" + "=");
  }

  /**
   The test is for `NAME=` anywhere in the text, so a longer key that ends
   in the name counts as a declaration of it.
   */
  lemma DeclaredInsideLongerKey(file: Uri)
    ensures var contents := map[file := "OTHER_API_KEY=1"];
      EnvFix.Fix("API_KEY", [file], None, contents) == EnvFix.AlreadyDeclared(file)
  {
    var s := "OTHER_API_KEY=1";
    assert EnvFix.OccursAt(s, "API_KEY=", 6) by {
      assert s[6..14] == "API_KEY=";
    }
    EnvFix.IncludesIff(s, "API_KEY=");
    assert "API_KEY" + "=" == "API_KEY=";
  }

  /**
   A missing name is appended after a newline, so a file that already ends
   with one gets an empty line before the new declaration.
   */
  lemma AppendedOnNewLine(file: Uri)
    ensures var contents := map[file := "MY_VAR=123\n"];
      EnvFix.Fix("MY_THIRD_VAR", [file], None, contents) == EnvFix.Added(file, "MY_VAR=123\n" + "\n" + "MY_THIRD_VAR" + "=")
  {
    var s := "MY_VAR=123\n";
    EnvFix.IncludesIff(s, "MY_THIRD_VAR" + "=");
  }

  // ---------------------------------------------------------------------
  // The same undeclared name twice: `process.env.API_KEY + process.env.API_KEY`
  // ---------------------------------------------------------------------

  lemma RepeatedTextFirstPart()
    ensures "process.env.API_KEY + process.env.API_KEY" ==
      "" + TsNodePattern.prefix + "API_KEY" + TsNodePattern.suffix + " + process.env.API_KEY"
  {
  }

  lemma RepeatedTextSecondPart()
    ensures "process.env.API_KEY + process.env.API_KEY" ==
      "process.env.API_KEY + " + TsNodePattern.prefix + "API_KEY" + TsNodePattern.suffix + ""
  {
  }

  lemma RepeatedTextFirst(text: string)
    requires text == "process.env.API_KEY + process.env.API_KEY"
    ensures Matches(TsNodePattern, text, 0) == [Match(0, 19, "API_KEY")] + Matches(TsNodePattern, text, 19)
  {
    PatternsWellFormed();
    assert text == "" + TsNodePattern.prefix + "API_KEY" + TsNodePattern.suffix + " + process.env.API_KEY" by {
      RepeatedTextFirstPart();
    }
    ReferenceInMatches(TsNodePattern, text, "", "API_KEY", " + process.env.API_KEY", 0, 19, 19);
  }

  lemma RepeatedTextGap(text: string)
    requires text == "process.env.API_KEY + process.env.API_KEY"
    ensures Matches(TsNodePattern, text, 19) == Matches(TsNodePattern, text, 22)
  {
    NoReferenceBetween(TsNodePattern, text, 19, 22);
  }

  lemma RepeatedTextSecond(text: string)
    requires text == "process.env.API_KEY + process.env.API_KEY"
    ensures Matches(TsNodePattern, text, 22) == [Match(22, 19, "API_KEY")]
  {
    PatternsWellFormed();
    assert text == "process.env.API_KEY + " + TsNodePattern.prefix + "API_KEY" + TsNodePattern.suffix + "" by {
      RepeatedTextSecondPart();
    }
    ReferenceInMatches(TsNodePattern, text, "process.env.API_KEY + ", "API_KEY", "", 22, 19, 41);
    MatchesEnd(TsNodePattern, text, 41);
  }

  lemma RepeatedTextMatches(text: string)
    requires text == "process.env.API_KEY + process.env.API_KEY"
    ensures Matches(TsNodePattern, text, 0) == [Match(0, 19, "API_KEY"), Match(22, 19, "API_KEY")]
  {
    RepeatedTextFirst(text);
    RepeatedTextGap(text);
    RepeatedTextSecond(text);
  }

  lemma RepeatedTextWarnings(uri: Uri)
    ensures ToDiagnostic(TsNodePattern, Match(0, 19, "API_KEY"), uri) ==
      Diagnostic(Span(12, 19), "API_KEY" + " is not defined in any .env file", Warning, Some(Code("API_KEY", uri)))
    ensures ToDiagnostic(TsNodePattern, Match(22, 19, "API_KEY"), uri) ==
      Diagnostic(Span(34, 41), "API_KEY" + " is not defined in any .env file", Warning, Some(Code("API_KEY", uri)))
  {
  }

  lemma RepeatedTextValidate(text: string, envVars: set<string>, uri: Uri)
    requires text == "process.env.API_KEY + process.env.API_KEY"
    requires "API_KEY" !in envVars
    ensures Validate(TsNodePattern, text, envVars, uri) ==
      [ToDiagnostic(TsNodePattern, Match(0, 19, "API_KEY"), uri), ToDiagnostic(TsNodePattern, Match(22, 19, "API_KEY"), uri)]
  {
    RepeatedTextMatches(text);
    ValidateTwo(TsNodePattern, text, Match(0, 19, "API_KEY"), Match(22, 19, "API_KEY"), envVars, uri);
  }

  /** Two warnings, one per occurrence, in text order; nothing is merged. */
  lemma RepeatedNameNotDeduplicated(text: string, envVars: set<string>, uri: Uri)
    requires text == "process.env.API_KEY + process.env.API_KEY"
    requires "API_KEY" !in envVars
    ensures var d1 := Diagnostic(Span(12, 19), "API_KEY" + " is not defined in any .env file", Warning, Some(Code("API_KEY", uri)));
      var d2 := Diagnostic(Span(34, 41), "API_KEY" + " is not defined in any .env file", Warning, Some(Code("API_KEY", uri)));
      Validate(TsNodePattern, text, envVars, uri) == [d1, d2]
  {
    RepeatedTextValidate(text, envVars, uri);
    RepeatedTextWarnings(uri);
  }

  lemma UpperCasePrefix()
    ensures FoldsFrom("PROCESS.ENV.", "process.env.", 0, 0)
  {
  }

  lemma CaseTextParts()
    ensures "PROCESS.ENV.my_var" == "" + "PROCESS.ENV." + "my_var" + TsNodePattern.suffix + ""
  {
  }

  lemma CaseTextMatches(text: string)
    requires text == "PROCESS.ENV.my_var"
    ensures Matches(TsNodePattern, text, 0) == [Match(0, 18, "my_var")]
  {
    PatternsWellFormed();
    UpperCasePrefix();
    assert text == "" + "PROCESS.ENV." + "my_var" + TsNodePattern.suffix + "" by {
      CaseTextParts();
    }
    ReferenceWrittenMatches(TsNodePattern, text, "", "PROCESS.ENV.", "my_var", "", 0, 18, 18);
    MatchesEnd(TsNodePattern, text, 18);
  }

  lemma CaseTextWarning(uri: Uri)
    ensures ToDiagnostic(TsNodePattern, Match(0, 18, "my_var"), uri) ==
      Diagnostic(Span(12, 18), "my_var" + " is not defined in any .env file", Warning, Some(Code("my_var", uri)))
  {
  }

  lemma CaseTextValidate(text: string, uri: Uri)
    requires text == "PROCESS.ENV.my_var"
    ensures Validate(TsNodePattern, text, {"MY_VAR"}, uri) == [ToDiagnostic(TsNodePattern, Match(0, 18, "my_var"), uri)]
  {
    CaseTextMatches(text);
    assert "my_var" !in {"MY_VAR"};
    ValidateOne(TsNodePattern, text, Match(0, 18, "my_var"), {"MY_VAR"}, uri);
  }

  /**
   The search ignores case but the lookup does not: `PROCESS.ENV.my_var` is
   a reference, and `my_var` is not the declared `MY_VAR`.
   */
  lemma CaseInsensitiveSearchSensitiveLookup(text: string, uri: Uri)
    requires text == "PROCESS.ENV.my_var"
    ensures Validate(TsNodePattern, text, {"MY_VAR"}, uri) ==
      [Diagnostic(Span(12, 18), "my_var" + " is not defined in any .env file", Warning, Some(Code("my_var", uri)))]
  {
    CaseTextValidate(text, uri);
    CaseTextWarning(uri);
  }
}
