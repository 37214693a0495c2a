/**
 `EnvVarCodeActionProvider.provideCodeActions`: one quick fix per warning
 that carries a code, in the order the editor hands the diagnostics over.
 Each fix runs the `addEnvVar` command with the variable's name and the
 document the fixes were asked for.
 */
module CodeActions {
  import opened Wrappers
  import opened Validator

  const AddEnvVarCommand := "live-env-validator.addEnvVar"

  datatype CodeActionKind = QuickFix

  /** A command invocation with the command's `arguments: [varName, document.uri]`. */
  datatype Command = Command(command: string, title: string, variableName: string, documentUri: Uri)

  datatype CodeAction = CodeAction(title: string, kind: CodeActionKind, command: Command)

  /** The fix offered for the variable `varName` of the document `documentUri`. */
  function FixFor(varName: string, documentUri: Uri): (a: CodeAction)
    ensures a.kind == QuickFix && a.command.command == AddEnvVarCommand
    ensures a.command.variableName == varName && a.command.documentUri == documentUri
  {
    CodeAction("Add " + varName + " to .env file", QuickFix,
               Command(AddEnvVarCommand, "Add to .env file", varName, documentUri))
  }

  /** A diagnostic the provider offers a fix for: a warning that has a code. */
  predicate Actionable(d: Diagnostic) {
    d.severity == Warning && d.code.Some?
  }

  /** The fixes for `diagnostics`, in their order. */
  function Actions(diagnostics: seq<Diagnostic>, documentUri: Uri): (actions: seq<CodeAction>)
    ensures |actions| <= |diagnostics|
  {
    if diagnostics == [] then []
    else
      var d := diagnostics[|diagnostics| - 1];
      Actions(diagnostics[..|diagnostics| - 1], documentUri) +
        (if Actionable(d) then [FixFor(d.code.value.value, documentUri)] else [])
  }

  /**
   `provideCodeActions`. The range, the document's text and the cancellation
   token are not read by the source and are not parameters here.
   */
  method ProvideCodeActions(documentUri: Uri, diagnostics: seq<Diagnostic>) returns (actions: seq<CodeAction>)
    ensures actions == Actions(diagnostics, documentUri)
  {
    actions := [];
    for i := 0 to |diagnostics|
      invariant actions == Actions(diagnostics[..i], documentUri)
    {
      var diagnostic := diagnostics[i];
      assert diagnostics[..i + 1][..i] == diagnostics[..i];
      if diagnostic.severity == Warning && diagnostic.code.Some? {
        var varName := diagnostic.code.value.value;
        actions := actions + [FixFor(varName, documentUri)];
      }
    }
    assert diagnostics[..|diagnostics|] == diagnostics;
  }

  /** Every fix belongs to an actionable diagnostic, and every actionable diagnostic gets one. */
  lemma {:induction false} ActionsCorrespondence(diagnostics: seq<Diagnostic>, documentUri: Uri)
    ensures forall a :: a in Actions(diagnostics, documentUri) <==>
      exists k :: 0 <= k < |diagnostics| && Actionable(diagnostics[k]) &&
                  a == FixFor(diagnostics[k].code.value.value, documentUri)
  {
    if diagnostics != [] {
      var init := diagnostics[..|diagnostics| - 1];
      var d := diagnostics[|diagnostics| - 1];
      ActionsCorrespondence(init, documentUri);
      forall a ensures a in Actions(diagnostics, documentUri) <==>
        exists k :: 0 <= k < |diagnostics| && Actionable(diagnostics[k]) &&
                    a == FixFor(diagnostics[k].code.value.value, documentUri)
      {
        if a in Actions(init, documentUri) {
          var k :| 0 <= k < |init| && Actionable(init[k]) && a == FixFor(init[k].code.value.value, documentUri);
          assert diagnostics[k] == init[k];
        }
        if exists k :: 0 <= k < |diagnostics| && Actionable(diagnostics[k]) &&
                       a == FixFor(diagnostics[k].code.value.value, documentUri) {
          var k :| 0 <= k < |diagnostics| && Actionable(diagnostics[k]) &&
                   a == FixFor(diagnostics[k].code.value.value, documentUri);
          if k < |init| {
            assert init[k] == diagnostics[k];
          }
        }
      }
    }
  }

  /** The fixes for one diagnostic: its own, when it is actionable. */
  lemma ActionsSingle(d: Diagnostic, documentUri: Uri)
    ensures Actions([d], documentUri) == if Actionable(d) then [FixFor(d.code.value.value, documentUri)] else []
  {
    assert [d][..0] == [];
  }

  /** The fixes for two lists one after the other are the first list's fixes, then the second's. */
  lemma {:induction false} ActionsAppend(ds1: seq<Diagnostic>, ds2: seq<Diagnostic>, documentUri: Uri)
    decreases |ds2|
    ensures Actions(ds1 + ds2, documentUri) == Actions(ds1, documentUri) + Actions(ds2, documentUri)
  {
    if ds2 == [] {
      assert ds1 + ds2 == ds1;
    } else {
      var init, d := ds2[..|ds2| - 1], ds2[|ds2| - 1];
      ActionsAppend(ds1, init, documentUri);
      var all := ds1 + ds2;
      assert all[..|all| - 1] == ds1 + init && all[|all| - 1] == d;
      var last := if Actionable(d) then [FixFor(d.code.value.value, documentUri)] else [];
      assert Actions(all, documentUri) == (Actions(ds1, documentUri) + Actions(init, documentUri)) + last;
      assert Actions(ds2, documentUri) == Actions(init, documentUri) + last;
    }
  }

  /**
   The fixes are those of the actionable diagnostics, in increasing order of
   position: `idx` lists exactly the positions of the actionable diagnostics,
   each once, and the `j`-th fix is the fix of the diagnostic at `idx[j]`.
   */
  lemma {:induction false} ActionsIndexed(diagnostics: seq<Diagnostic>, documentUri: Uri) returns (idx: seq<nat>)
    ensures |idx| == |Actions(diagnostics, documentUri)|
    ensures forall j :: 0 <= j < |idx| ==>
      idx[j] < |diagnostics| && Actionable(diagnostics[idx[j]]) &&
      Actions(diagnostics, documentUri)[j] == FixFor(diagnostics[idx[j]].code.value.value, documentUri)
    ensures forall i, j :: 0 <= i < j < |idx| ==> idx[i] < idx[j]
    ensures forall k :: 0 <= k < |diagnostics| && Actionable(diagnostics[k]) ==> k in idx
  {
    if diagnostics == [] {
      idx := [];
    } else {
      var n := |diagnostics| - 1;
      var init, d := diagnostics[..n], diagnostics[n];
      var idx' := ActionsIndexed(init, documentUri);
      assert forall k :: 0 <= k < n ==> init[k] == diagnostics[k];
      var before, acts := Actions(init, documentUri), Actions(diagnostics, documentUri);
      if Actionable(d) {
        idx := idx' + [n];
        var fix := FixFor(d.code.value.value, documentUri);
        assert acts == before + [fix];
        forall j | 0 <= j < |idx|
          ensures idx[j] < |diagnostics| && Actionable(diagnostics[idx[j]])
          ensures acts[j] == FixFor(diagnostics[idx[j]].code.value.value, documentUri)
        {
          if j < |idx'| {
            assert idx[j] == idx'[j] && acts[j] == before[j];
          }
        }
        forall k | 0 <= k < |diagnostics| && Actionable(diagnostics[k])
          ensures k in idx
        {
          if k < n {
            assert k in idx';
          }
        }
      } else {
        idx := idx';
        assert acts == before + [];
        assert before + [] == before;
      }
    }
  }

  /**
   When every diagnostic is actionable (as every warning of the scans is),
   there is exactly one fix per diagnostic, in the same order, each for the
   diagnostic's own variable.
   */
  lemma {:induction false} ActionsOnePerWarning(diagnostics: seq<Diagnostic>, documentUri: Uri)
    requires forall k :: 0 <= k < |diagnostics| ==> diagnostics[k].severity == Warning && diagnostics[k].code.Some?
    ensures |Actions(diagnostics, documentUri)| == |diagnostics|
    ensures forall k :: 0 <= k < |diagnostics| ==>
      Actions(diagnostics, documentUri)[k] == FixFor(diagnostics[k].code.value.value, documentUri)
  {
    if diagnostics != [] {
      var init := diagnostics[..|diagnostics| - 1];
      ActionsOnePerWarning(init, documentUri);
      assert forall k :: 0 <= k < |init| ==> init[k] == diagnostics[k];
    }
  }

  /** Every warning the scans publish is actionable, so each gets its fix, in order. */
  lemma ValidatedActions(p: Scanner.Pattern, text: string, envVars: set<string>, uri: Uri)
    ensures var diagnostics := Validate(p, text, envVars, uri);
      |Actions(diagnostics, uri)| == |diagnostics| &&
      forall k :: 0 <= k < |diagnostics| ==>
        diagnostics[k].code.Some? && Actions(diagnostics, uri)[k] == FixFor(diagnostics[k].code.value.value, uri)
  {
    var diagnostics := Validate(p, text, envVars, uri);
    forall k | 0 <= k < |diagnostics|
      ensures Actionable(diagnostics[k])
    {
      ValidatedFlags(p, text, envVars, uri, diagnostics[k]);
    }
    ActionsOnePerWarning(diagnostics, uri);
  }
}
