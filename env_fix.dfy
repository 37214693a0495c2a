/**
 The `live-env-validator.addEnvVar` command behind the quick fix: find the
 `.env*` files, pick one (the only one, or the one the user chooses), and
 append `NAME=` on a new line unless the file's text already contains
 `NAME=` somewhere.
 */
module EnvFix {
  import opened Wrappers
  import opened Validator

  /** `s.includes(t)`: `t` occurs in `s` at some offset. */
  predicate Includes(s: string, t: string)
    decreases |s|
  {
    t <= s || (s != [] && Includes(s[1..], t))
  }

  /** `t` occurs in `s` at offset `k`. */
  predicate OccursAt(s: string, t: string, k: int) {
    0 <= k && k + |t| <= |s| && s[k..k + |t|] == t
  }

  /** Being a prefix is occurring at offset 0. */
  lemma PrefixOccurs(s: string, t: string)
    ensures t <= s <==> OccursAt(s, t, 0)
  {
    if |t| <= |s| {
      assert s[..|t|] == s[0..|t|];
    }
  }

  /** An occurrence after the first character is an occurrence in the rest. */
  lemma OccursLater(s: string, t: string, k: int)
    requires s != [] && 0 < k
    ensures OccursAt(s, t, k) <==> OccursAt(s[1..], t, k - 1)
  {
    if k + |t| <= |s| {
      assert s[1..][k - 1..k - 1 + |t|] == s[k..k + |t|];
    }
  }

  /** `Includes` is the existence of an offset where `t` occurs. */
  lemma {:induction false} IncludesIff(s: string, t: string)
    ensures Includes(s, t) <==> exists k :: OccursAt(s, t, k)
  {
    PrefixOccurs(s, t);
    if s != [] && !(t <= s) {
      IncludesIff(s[1..], t);
      if exists k :: OccursAt(s, t, k) {
        var k :| OccursAt(s, t, k);
        OccursLater(s, t, k);
      }
      if exists k :: OccursAt(s[1..], t, k) {
        var k :| OccursAt(s[1..], t, k);
        OccursLater(s, t, k + 1);
      }
    }
  }

  /** A text still contains `t` after more is appended to it. */
  lemma {:induction false} IncludesExtended(s: string, u: string, t: string)
    requires Includes(s, t)
    ensures Includes(s + u, t)
  {
    if t <= s {
      assert (s + u)[..|t|] == s[..|t|];
    } else {
      assert (s + u)[1..] == s[1..] + u;
      IncludesExtended(s[1..], u, t);
    }
  }

  /** A text that ends with `t` contains it. */
  lemma {:induction false} IncludesEnding(s: string, t: string)
    ensures Includes(s + t, t)
  {
    if s == [] {
      assert s + t == t;
    } else {
      assert (s + t)[1..] == s[1..] + t;
      IncludesEnding(s[1..], t);
    }
  }

  /**
   The `.env` text after the fix for `name`: unchanged when it already
   contains `name=`, otherwise with `"\n" + name + "="` appended.
   */
  function AddDeclaration(content: string, name: string): (r: string)
    ensures content <= r
    ensures Includes(r, name + "=")
    ensures r == content <==> Includes(content, name + "=")
    ensures r != content ==> r == content + "\n" + name + "="
  {
    if Includes(content, name + "=") then content
    else
      IncludesEnding(content + "\n", name + "=");
      assert content + "\n" + name + "=" == (content + "\n") + (name + "=");
      content + "\n" + name + "="
  }

  /** Running the fix a second time changes nothing more. */
  lemma AddDeclarationIdempotent(content: string, name: string)
    ensures AddDeclaration(AddDeclaration(content, name), name) == AddDeclaration(content, name)
  {
  }

  /**
   The file the command works on: the only `.env*` file, or the one picked
   from the quick pick (`picked` is the index of the chosen item, `None`
   when the pick was dismissed); with no file there is none.
   */
  function SelectEnvFile(envFiles: seq<Uri>, picked: Option<nat>): (selected: Option<Uri>)
    requires picked.Some? ==> picked.value < |envFiles|
    ensures |envFiles| == 0 ==> selected.None?
    ensures |envFiles| == 1 ==> selected == Some(envFiles[0])
    ensures |envFiles| > 1 ==> (selected.Some? <==> picked.Some?)
    ensures |envFiles| > 1 && picked.Some? ==> selected == Some(envFiles[picked.value])
    ensures selected.Some? ==> selected.value in envFiles
  {
    if |envFiles| == 0 then None
    else if |envFiles| == 1 then Some(envFiles[0])
    else if picked.Some? then Some(envFiles[picked.value])
    else None
  }

  datatype FixOutcome =
    | NoEnvFileFound
    | NothingSelected
    | AlreadyDeclared(file: Uri)
    | Added(file: Uri, newContent: string)

  /** What the command does, given the found files, the pick and the files' texts. */
  function Fix(name: string, envFiles: seq<Uri>, picked: Option<nat>, contents: map<Uri, string>): (outcome: FixOutcome)
    requires picked.Some? ==> picked.value < |envFiles|
    requires forall f :: f in envFiles ==> f in contents
    ensures outcome.AlreadyDeclared? || outcome.Added? ==> outcome.file in envFiles
    ensures outcome.Added? ==> contents[outcome.file] < outcome.newContent
  {
    if |envFiles| == 0 then NoEnvFileFound
    else
      match SelectEnvFile(envFiles, picked)
      case None => NothingSelected
      case Some(file) =>
        if Includes(contents[file], name + "=") then AlreadyDeclared(file)
        else Added(file, contents[file] + "\n" + name + "=")
  }

  /** The files' texts after the command: only an `Added` outcome writes. */
  function Written(contents: map<Uri, string>, outcome: FixOutcome): (after: map<Uri, string>)
    ensures after.Keys == if outcome.Added? then contents.Keys + {outcome.file} else contents.Keys
    ensures forall f :: f in contents && !(outcome.Added? && f == outcome.file) ==> after[f] == contents[f]
  {
    if outcome.Added? then contents[outcome.file := outcome.newContent] else contents
  }

  /**
   Without any `.env*` file there is nothing to add to; with several and no
   pick nothing is written; otherwise the selected file's text becomes its
   `AddDeclaration` and every other file is left as it was.
   */
  lemma FixCases(name: string, envFiles: seq<Uri>, picked: Option<nat>, contents: map<Uri, string>)
    requires picked.Some? ==> picked.value < |envFiles|
    requires forall f :: f in envFiles ==> f in contents
    ensures var outcome := Fix(name, envFiles, picked, contents);
      (outcome == NoEnvFileFound <==> |envFiles| == 0) &&
      (outcome == NothingSelected <==> |envFiles| > 1 && picked.None?) &&
      (outcome.AlreadyDeclared? || outcome.Added? ==>
        SelectEnvFile(envFiles, picked) == Some(outcome.file) &&
        Written(contents, outcome) == contents[outcome.file := AddDeclaration(contents[outcome.file], name)])
  {
  }

  /** After the command has run once, running it again with the same choice finds the name declared. */
  lemma FixTwice(name: string, envFiles: seq<Uri>, picked: Option<nat>, contents: map<Uri, string>)
    requires picked.Some? ==> picked.value < |envFiles|
    requires forall f :: f in envFiles ==> f in contents
    ensures var first := Fix(name, envFiles, picked, contents);
      var after := Written(contents, first);
      (forall f :: f in envFiles ==> f in after) &&
      (first.AlreadyDeclared? || first.Added? ==>
        Fix(name, envFiles, picked, after) == AlreadyDeclared(first.file) &&
        Includes(after[first.file], name + "="))
  {
    var first := Fix(name, envFiles, picked, contents);
    if first.Added? {
      var r := AddDeclaration(contents[first.file], name);
      assert first.newContent == r;
    }
  }

  /** The path without its trailing `/` characters. */
  function TrimTrailing(path: string): string
    decreases |path|
  {
    if path != [] && path[|path| - 1] == '/' then TrimTrailing(path[..|path| - 1]) else path
  }

  /** Trimming removes a run of `/` at the end, and only that. */
  lemma {:induction false} TrimTrailingShape(path: string)
    decreases |path|
    ensures TrimTrailing(path) <= path
    ensures TrimTrailing(path) == [] || TrimTrailing(path)[|TrimTrailing(path)| - 1] != '/'
    ensures forall k :: |TrimTrailing(path)| <= k < |path| ==> path[k] == '/'
  {
    if path != [] && path[|path| - 1] == '/' {
      var init := path[..|path| - 1];
      TrimTrailingShape(init);
      assert forall k :: 0 <= k < |init| ==> init[k] == path[k];
    }
  }

  /** The text after the last `/`. */
  function LastSegment(path: string): string
    decreases |path|
  {
    if path == [] || path[|path| - 1] == '/' then []
    else LastSegment(path[..|path| - 1]) + [path[|path| - 1]]
  }

  /** The last segment ends the path. */
  lemma {:induction false} LastSegmentSuffix(path: string)
    decreases |path|
    ensures |LastSegment(path)| <= |path| && path[|path| - |LastSegment(path)|..] == LastSegment(path)
  {
    if path != [] && path[|path| - 1] != '/' {
      var init, c := path[..|path| - 1], path[|path| - 1];
      LastSegmentSuffix(init);
      var bi := LastSegment(init);
      assert path[|path| - |bi| - 1..] == init[|init| - |bi|..] + [c];
    }
  }

  /** The last segment holds no `/`. */
  lemma {:induction false} LastSegmentNoSeparator(path: string)
    decreases |path|
    ensures forall k :: 0 <= k < |LastSegment(path)| ==> LastSegment(path)[k] != '/'
  {
    if path != [] && path[|path| - 1] != '/' {
      var init := path[..|path| - 1];
      LastSegmentNoSeparator(init);
      var b, bi := LastSegment(path), LastSegment(init);
      forall k | 0 <= k < |b|
        ensures b[k] != '/'
      {
        if k < |bi| {
          assert b[k] == bi[k];
        }
      }
    }
  }

  /** The last segment is the whole path or follows its last `/`. */
  lemma {:induction false} LastSegmentAfterSeparator(path: string)
    decreases |path|
    ensures LastSegment(path) == path || (|LastSegment(path)| < |path| && path[|path| - |LastSegment(path)| - 1] == '/')
  {
    if path != [] && path[|path| - 1] != '/' {
      var init, c := path[..|path| - 1], path[|path| - 1];
      LastSegmentAfterSeparator(init);
      var bi := LastSegment(init);
      if bi == init {
        assert path == init + [c];
      } else {
        assert LastSegment(path) == bi + [c];
        assert path[|path| - |bi| - 2] == init[|init| - |bi| - 1];
      }
    }
  }

  /**
   `path.basename` on a POSIX path: the last segment once trailing `/`
   characters are dropped, so `/w/dir/` gives `dir` and `/` gives nothing.
   */
  function Basename(path: string): string {
    LastSegment(TrimTrailing(path))
  }

  /** The base name holds no `/`. */
  lemma BasenameNoSeparator(path: string)
    ensures forall k :: 0 <= k < |Basename(path)| ==> Basename(path)[k] != '/'
  {
    LastSegmentNoSeparator(TrimTrailing(path));
  }

  /** A trailing `/` does not change the base name. */
  lemma BasenameIgnoresTrailingSeparator(path: string)
    ensures Basename(path + "/") == Basename(path)
  {
    assert (path + "/")[..|path|] == path;
  }

  /** `/w/dir/` names `dir`, and the root names nothing. */
  lemma BasenameExamples()
    ensures Basename("/w/dir/") == "dir"
    ensures Basename("/") == ""
  {
    BasenameIgnoresTrailingSeparator("/w/dir");
    assert "/w/dir" + "/" == "/w/dir/";
    assert "/w/dir"[..5] == "/w/di" && "/w/di"[..4] == "/w/d" && "/w/d"[..3] == "/w/";
  }

  /** For a path that does not end in `/`, the base name is the text after its last `/`. */
  lemma BasenameOfFile(path: string)
    requires path != [] && path[|path| - 1] != '/'
    ensures |Basename(path)| <= |path| && path[|path| - |Basename(path)|..] == Basename(path)
    ensures Basename(path) == path || path[|path| - |Basename(path)| - 1] == '/'
  {
    LastSegmentSuffix(path);
    LastSegmentAfterSeparator(path);
  }

  datatype Notification = ErrorMessage(text: string) | InformationMessage(text: string)

  /** The error shown when the workspace has no `.env*` file. */
  const NoEnvFileMessage := "No .env file found in the workspace."

  /** The information shown once `name` has been appended to `file`. */
  function AddedMessage(name: string, file: Uri): string {
    "Added " + name + " to " + Basename(file)
  }

  /** The message the command shows for an outcome, if any. */
  function NotificationFor(name: string, outcome: FixOutcome): (n: Option<Notification>)
    ensures n.None? <==> outcome.NothingSelected? || outcome.AlreadyDeclared?
  {
    match outcome
    case NoEnvFileFound => Some(ErrorMessage(NoEnvFileMessage))
    case Added(file, _) => Some(InformationMessage(AddedMessage(name, file)))
    case _ => None
  }

  lemma AddedNotification(name: string, file: Uri, newContent: string)
    ensures NotificationFor(name, Added(file, newContent)) == Some(InformationMessage(AddedMessage(name, file)))
  {
  }

  /** The workspace's `.env*` files and their texts, as `workspace.fs` reads and writes them. */
  class EnvFileSystem {
    var contents: map<Uri, string>

    constructor(contents: map<Uri, string>)
      ensures this.contents == contents
    {
      this.contents := contents;
    }
  }

  /**
   The `addEnvVar` command. `envFiles` is what the search for `.env*` files
   returned and `picked` the answer of the quick pick, which is shown only
   when there are several files.
   */
  method AddEnvVar(fs: EnvFileSystem, variableName: string, envFiles: seq<Uri>, picked: Option<nat>)
    returns (outcome: FixOutcome, message: Option<Notification>)
    requires picked.Some? ==> picked.value < |envFiles|
    requires forall f :: f in envFiles ==> f in fs.contents
    modifies fs
    ensures outcome == Fix(variableName, envFiles, picked, old(fs.contents))
    ensures fs.contents == Written(old(fs.contents), outcome)
    ensures message == NotificationFor(variableName, outcome)
  {
    if |envFiles| == 0 {
      return NoEnvFileFound, Some(ErrorMessage(NoEnvFileMessage));
    }
    var selectedEnvFile: Option<Uri> := None;
    if |envFiles| == 1 {
      selectedEnvFile := Some(envFiles[0]);
    } else if picked.Some? {
      selectedEnvFile := Some(envFiles[picked.value]);
    }
    assert selectedEnvFile == SelectEnvFile(envFiles, picked);
    if selectedEnvFile.None? {
      return NothingSelected, None;
    }
    var file := selectedEnvFile.value;
    assert file in envFiles;
    var contentString := fs.contents[file];
    if !Includes(contentString, variableName + "=") {
      var newContent := contentString + "\n" + variableName + "=";
      fs.contents := fs.contents[file := newContent];
      outcome := Added(file, newContent);
      message := Some(InformationMessage(AddedMessage(variableName, file)));
      AddedNotification(variableName, file, newContent);
    } else {
      outcome := AlreadyDeclared(file);
      message := None;
    }
  }
}
