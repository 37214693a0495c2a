/**
 A lexical matcher that stands in for the two fixed regular expressions of the
 extension, `/process\.env\.([A-Z0-9_]+)/gi` and `/os\.Getenv\("([A-Z0-9_]+)"\)/gi`.
 Both have the shape  prefix, one or more name characters (greedy), suffix,
 matched case-insensitively and searched globally: every `exec` call looks for
 the leftmost match at or after `lastIndex` and moves `lastIndex` to its end.
 Offsets count characters of the text.
 */
module Scanner {
  import opened Wrappers

  /** The fixed parts of a pattern around its single capture group. */
  datatype Pattern = Pattern(prefix: string, suffix: string)

  /** `/process\.env\.([A-Z0-9_]+)/gi` */
  const TsNodePattern := Pattern("process.env.", "")

  /** `/os\.Getenv\("([A-Z0-9_]+)"\)/gi` */
  const GoPattern := Pattern("os.Getenv(\"", "\")")

  /**
   ASCII upper-casing. Under the `i` flag a character matches a pattern
   character when both canonicalise (upper-case) to the same character, and a
   character outside ASCII never canonicalises into ASCII; every pattern
   character here is ASCII, so folding ASCII letters is all the flag does.
   */
  function Upper(c: char): char {
    if 'a' <= c <= 'z' then (c as int - 32) as char else c
  }

  /** Text character `c` matches pattern character `l` case-insensitively. */
  predicate FoldEq(c: char, l: char) {
    Upper(c) == Upper(l)
  }

  /** The class `[A-Z0-9_]` under the `i` flag. */
  predicate IsNameChar(c: char) {
    'A' <= c <= 'Z' || 'a' <= c <= 'z' || '0' <= c <= '9' || c == '_'
  }

  /** The literal `lit` occurs in `text` at offset `i`, ignoring case. */
  predicate LiteralAt(text: string, i: nat, lit: string): (r: bool)
    decreases lit
    ensures r ==> i + |lit| <= |text|
  {
    if lit == [] then i <= |text|
    else i < |text| && FoldEq(text[i], lit[0]) && LiteralAt(text, i + 1, lit[1..])
  }

  /** `LiteralAt` compares the literal character by character. */
  lemma {:induction false} LiteralAtIff(text: string, i: nat, lit: string)
    decreases lit
    ensures LiteralAt(text, i, lit) <==>
      i + |lit| <= |text| && forall k :: i <= k < i + |lit| ==> FoldEq(text[k], lit[k - i])
  {
    if lit != [] {
      LiteralAtIff(text, i + 1, lit[1..]);
      if i < |text| && FoldEq(text[i], lit[0]) && LiteralAt(text, i + 1, lit[1..]) {
        forall k | i <= k < i + |lit|
          ensures FoldEq(text[k], lit[k - i])
        {
          if k > i {
            assert lit[1..][k - (i + 1)] == lit[k - i];
          }
        }
      }
      if i + |lit| <= |text| && forall k :: i <= k < i + |lit| ==> FoldEq(text[k], lit[k - i]) {
        assert FoldEq(text[i], lit[i - i]);
        forall k | i + 1 <= k < i + 1 + |lit[1..]|
          ensures FoldEq(text[k], lit[1..][k - (i + 1)])
        {
          assert lit[1..][k - (i + 1)] == lit[k - i];
        }
      }
    }
  }

  /** The pattern's prefix is not empty, and a greedy run of name characters
      never has to give characters back for the suffix to match. */
  predicate WellFormed(p: Pattern) {
    |p.prefix| > 0 && (p.suffix == [] || !IsNameChar(p.suffix[0]))
  }

  /** Length of the longest run of name characters that starts at offset `i`. */
  function NameRun(text: string, i: nat): (n: nat)
    requires i <= |text|
    decreases |text| - i
    ensures i + n <= |text|
  {
    if i < |text| && IsNameChar(text[i]) then 1 + NameRun(text, i + 1) else 0
  }

  /** The run is made of name characters and cannot be extended. */
  lemma {:induction false} NameRunMaximal(text: string, i: nat)
    requires i <= |text|
    decreases |text| - i
    ensures forall j :: i <= j < i + NameRun(text, i) ==> IsNameChar(text[j])
    ensures i + NameRun(text, i) == |text| || !IsNameChar(text[i + NameRun(text, i)])
  {
    if i < |text| && IsNameChar(text[i]) {
      NameRunMaximal(text, i + 1);
    }
  }

  /**
   The pattern tried at offset `i` alone: `Some(n)` when it matches there,
   `n` being the length of the whole match (`match[0].length`).
   */
  function MatchAt(p: Pattern, text: string, i: nat): (r: Option<nat>)
    ensures r.Some? ==> i + r.value <= |text| && |p.prefix| + |p.suffix| < r.value
  {
    if !LiteralAt(text, i, p.prefix) then None
    else
      var start := i + |p.prefix|;
      var run := NameRun(text, start);
      if run == 0 || !LiteralAt(text, start + run, p.suffix) then None
      else Some(|p.prefix| + run + |p.suffix|)
  }

  /**
   The parts of a match: the prefix, a non-empty maximal run of name
   characters, then the suffix.
   */
  lemma MatchAtShape(p: Pattern, text: string, i: nat)
    requires MatchAt(p, text, i).Some?
    ensures var n := MatchAt(p, text, i).value;
      var start, end := i + |p.prefix|, i + n - |p.suffix|;
      LiteralAt(text, i, p.prefix) && start < end && LiteralAt(text, end, p.suffix) &&
      (forall j :: start <= j < end ==> IsNameChar(text[j])) &&
      (end == |text| || !IsNameChar(text[end]))
  {
    NameRunMaximal(text, i + |p.prefix|);
  }

  /**
   What the regular expression itself accepts at offset `i` with a capture of
   `k` characters: the prefix, `k > 0` name characters, then the suffix.
   A greedy `+` returns the largest such `k`.
   */
  ghost predicate RegexAccepts(p: Pattern, text: string, i: nat, k: nat) {
    var start := i + |p.prefix|;
    0 < k && LiteralAt(text, i, p.prefix) && start + k <= |text| &&
    (forall j :: start <= j < start + k ==> IsNameChar(text[j])) &&
    LiteralAt(text, start + k, p.suffix)
  }

  /** Any capture the regular expression accepts is no longer than the matcher's. */
  lemma AcceptedWithinMatch(p: Pattern, text: string, i: nat, k: nat)
    requires WellFormed(p) && RegexAccepts(p, text, i, k)
    ensures MatchAt(p, text, i).Some?
    ensures k <= MatchAt(p, text, i).value - |p.prefix| - |p.suffix|
  {
    NameRunMaximal(text, i + |p.prefix|);
  }

  /**
   The matcher agrees with greedy regular-expression matching: it matches at
   `i` exactly when some capture length is accepted there, and then its
   capture is the longest accepted one.
   */
  lemma MatchAtIsGreedyMatch(p: Pattern, text: string, i: nat)
    requires WellFormed(p)
    ensures MatchAt(p, text, i).Some? ==>
      var k := MatchAt(p, text, i).value - |p.prefix| - |p.suffix|;
      RegexAccepts(p, text, i, k) && forall k' :: k < k' ==> !RegexAccepts(p, text, i, k')
    ensures MatchAt(p, text, i).None? ==> forall k :: !RegexAccepts(p, text, i, k)
  {
    if MatchAt(p, text, i).Some? {
      MatchAtShape(p, text, i);
    }
    forall k: nat | RegexAccepts(p, text, i, k)
      ensures MatchAt(p, text, i).Some? && k <= MatchAt(p, text, i).value - |p.prefix| - |p.suffix|
    {
      AcceptedWithinMatch(p, text, i, k);
    }
  }

  lemma PatternsWellFormed()
    ensures WellFormed(TsNodePattern) && WellFormed(GoPattern)
  {
  }

  /** One result of `regex.exec`: `match.index`, `match[0].length` and `match[1]`. */
  datatype Match = Match(index: nat, length: nat, name: string)

  /** `m` is a match of `p` in `text` and `m.name` is its capture group. */
  ghost predicate IsMatch(p: Pattern, text: string, m: Match) {
    MatchAt(p, text, m.index) == Some(m.length) &&
    m.name == text[m.index + |p.prefix| .. m.index + m.length - |p.suffix|]
  }

  /**
   `regex.exec(text)` with `lastIndex == from`: the search tries `from`,
   `from + 1`, ... and returns the first match, or `None` (the JavaScript
   `null`) when there is none.
   */
  function Exec(p: Pattern, text: string, from: nat): (r: Option<Match>)
    decreases |text| - from
    ensures r.Some? ==> from <= r.value.index && r.value.index + r.value.length <= |text|
    ensures r.Some? ==> |p.prefix| + |p.suffix| < r.value.length
  {
    if from >= |text| then None
    else
      match MatchAt(p, text, from)
      case Some(n) => Some(Match(from, n, text[from + |p.prefix| .. from + n - |p.suffix|]))
      case None => Exec(p, text, from + 1)
  }

  /** What `Exec` returns is a match, and its capture group is the name. */
  lemma ExecSound(p: Pattern, text: string, from: nat)
    requires Exec(p, text, from).Some?
    decreases |text| - from
    ensures IsMatch(p, text, Exec(p, text, from).value)
  {
    if MatchAt(p, text, from).None? {
      ExecSound(p, text, from + 1);
    }
  }

  /** Nothing matches between `from` and what `Exec` returns, nor anywhere after
      `from` when it returns `None`. */
  lemma {:induction false} ExecIsLeftmost(p: Pattern, text: string, from: nat, j: nat)
    requires from <= j && MatchAt(p, text, j).Some?
    decreases |text| - from
    ensures Exec(p, text, from).Some? && Exec(p, text, from).value.index <= j
  {
    if MatchAt(p, text, from).None? {
      ExecIsLeftmost(p, text, from + 1, j);
    }
  }

  /**
   Every match the `while ((match = regex.exec(text)) !== null)` loop visits
   when `lastIndex` starts at `from`: each search resumes where the previous
   match ended, so the matches are in text order and never overlap.
   */
  function Matches(p: Pattern, text: string, from: nat): (ms: seq<Match>)
    decreases |text| - from
  {
    match Exec(p, text, from)
    case None => []
    case Some(m) => [m] + Matches(p, text, m.index + m.length)
  }

  /** One step of the loop: the first visited match, then those after it. */
  lemma MatchesUnfold(p: Pattern, text: string, from: nat, next: nat)
    requires Exec(p, text, from).Some?
    requires next == Exec(p, text, from).value.index + Exec(p, text, from).value.length
    ensures Matches(p, text, from) == [Exec(p, text, from).value] + Matches(p, text, next)
  {
  }

  /** Indexing a list of visited matches that starts with `m`. */
  lemma MatchesCons(ms: seq<Match>, m: Match, rest: seq<Match>)
    requires ms == [m] + rest
    ensures |ms| == |rest| + 1 && ms[0] == m && ms[1..] == rest
    ensures forall k :: 0 < k < |ms| ==> ms[k] == rest[k - 1]
  {
  }

  /**
   The shape of a list the loop visits from `from`: each match is non-empty
   and starts at or after the end of the one before it.
   */
  predicate Chained(ms: seq<Match>, from: nat)
    decreases |ms|
  {
    ms == [] || (from <= ms[0].index && 0 < ms[0].length && Chained(ms[1..], ms[0].index + ms[0].length))
  }

  lemma {:induction false} ChainedFrom(ms: seq<Match>, from: nat, k: nat)
    requires Chained(ms, from) && k < |ms|
    decreases |ms|
    ensures from <= ms[k].index
  {
    if k > 0 {
      ChainedFrom(ms[1..], ms[0].index + ms[0].length, k - 1);
      assert ms[k] == ms[1..][k - 1];
    }
  }

  lemma {:induction false} ChainedOrdered(ms: seq<Match>, from: nat, k: nat, l: nat)
    requires Chained(ms, from) && k < l < |ms|
    decreases |ms|
    ensures ms[k].index + ms[k].length <= ms[l].index
  {
    assert ms[l] == ms[1..][l - 1];
    if k == 0 {
      ChainedFrom(ms[1..], ms[0].index + ms[0].length, l - 1);
    } else {
      ChainedOrdered(ms[1..], ms[0].index + ms[0].length, k - 1, l - 1);
      assert ms[k] == ms[1..][k - 1];
    }
  }

  /** The loop's visits from `from` are chained. */
  lemma {:induction false} MatchesChained(p: Pattern, text: string, from: nat)
    decreases |text| - from
    ensures Chained(Matches(p, text, from), from)
  {
    if Exec(p, text, from).Some? {
      var m := Exec(p, text, from).value;
      MatchesUnfold(p, text, from, m.index + m.length);
      MatchesCons(Matches(p, text, from), m, Matches(p, text, m.index + m.length));
      MatchesChained(p, text, m.index + m.length);
    }
  }

  /** Every visited match starts at or after `from`. */
  lemma MatchesFrom(p: Pattern, text: string, from: nat, k: nat)
    requires k < |Matches(p, text, from)|
    ensures from <= Matches(p, text, from)[k].index
  {
    MatchesChained(p, text, from);
    ChainedFrom(Matches(p, text, from), from, k);
  }

  /** Every match of `ms` is a match of the pattern. */
  ghost predicate AllMatch(p: Pattern, text: string, ms: seq<Match>)
    decreases |ms|
  {
    ms == [] || (IsMatch(p, text, ms[0]) && AllMatch(p, text, ms[1..]))
  }

  lemma {:induction false} AllMatchAt(p: Pattern, text: string, ms: seq<Match>, k: nat)
    requires AllMatch(p, text, ms) && k < |ms|
    decreases |ms|
    ensures IsMatch(p, text, ms[k])
  {
    if k > 0 {
      AllMatchAt(p, text, ms[1..], k - 1);
      assert ms[k] == ms[1..][k - 1];
    }
  }

  lemma AllMatchCons(p: Pattern, text: string, ms: seq<Match>, m: Match, rest: seq<Match>)
    requires ms == [m] + rest && IsMatch(p, text, m) && AllMatch(p, text, rest)
    ensures AllMatch(p, text, ms)
  {
    assert ms[1..] == rest;
  }

  /** The loop's visits from `from` are all matches. */
  lemma {:induction false} MatchesAllMatch(p: Pattern, text: string, from: nat)
    decreases |text| - from
    ensures AllMatch(p, text, Matches(p, text, from))
  {
    if Exec(p, text, from).Some? {
      ExecSound(p, text, from);
      var m := Exec(p, text, from).value;
      MatchesUnfold(p, text, from, m.index + m.length);
      MatchesAllMatch(p, text, m.index + m.length);
      AllMatchCons(p, text, Matches(p, text, from), m, Matches(p, text, m.index + m.length));
    }
  }

  /** Every visited match is a match of the pattern. */
  lemma MatchesSound(p: Pattern, text: string, from: nat, k: nat)
    requires k < |Matches(p, text, from)|
    ensures IsMatch(p, text, Matches(p, text, from)[k])
  {
    MatchesAllMatch(p, text, from);
    AllMatchAt(p, text, Matches(p, text, from), k);
  }

  /** Visited matches come in text order and never overlap: each search
      resumes where the previous match ended. */
  lemma MatchesOrdered(p: Pattern, text: string, from: nat, k: nat, l: nat)
    requires k < l < |Matches(p, text, from)|
    ensures Matches(p, text, from)[k].index + Matches(p, text, from)[k].length <= Matches(p, text, from)[l].index
  {
    MatchesChained(p, text, from);
    ChainedOrdered(Matches(p, text, from), from, k, l);
  }

  /** The first visited match is what the first search finds. */
  lemma MatchesFirst(p: Pattern, text: string, from: nat)
    requires Exec(p, text, from).Some?
    ensures 0 < |Matches(p, text, from)| && Matches(p, text, from)[0] == Exec(p, text, from).value
  {
    var m := Exec(p, text, from).value;
    MatchesUnfold(p, text, from, m.index + m.length);
  }

  /** Each visit consumes at least one character, so the loop runs at most once per character. */
  lemma {:induction false} MatchesBound(p: Pattern, text: string, from: nat)
    requires from <= |text|
    decreases |text| - from
    ensures |Matches(p, text, from)| <= |text| - from
  {
    match Exec(p, text, from)
    case None =>
    case Some(m) =>
      MatchesBound(p, text, m.index + m.length);
  }

  /** The later visited matches are those visited from `next`, the end of the first. */
  lemma MatchesLater(p: Pattern, text: string, from: nat, next: nat, k: nat)
    requires Exec(p, text, from).Some?
    requires next == Exec(p, text, from).value.index + Exec(p, text, from).value.length
    requires k < |Matches(p, text, next)|
    ensures k + 1 < |Matches(p, text, from)| && Matches(p, text, from)[k + 1] == Matches(p, text, next)[k]
  {
    MatchesUnfold(p, text, from, next);
    MatchesCons(Matches(p, text, from), Exec(p, text, from).value, Matches(p, text, next));
  }

  /**
   No match is skipped: every offset at or after `from` where the pattern
   matches lies inside one of the visited matches (it is where that match
   starts, or it was consumed by an earlier, overlapping one).
   */
  lemma {:induction false} MatchesCover(p: Pattern, text: string, from: nat, j: nat) returns (k: nat)
    requires from <= j && MatchAt(p, text, j).Some?
    decreases |text| - from
    ensures k < |Matches(p, text, from)|
    ensures Matches(p, text, from)[k].index <= j < Matches(p, text, from)[k].index + Matches(p, text, from)[k].length
  {
    ExecIsLeftmost(p, text, from, j);
    var m := Exec(p, text, from).value;
    var next := m.index + m.length;
    if next <= j {
      var k' := MatchesCover(p, text, next, j);
      assert k' < |Matches(p, text, next)|;
      MatchesLater(p, text, from, next, k');
      k := k' + 1;
      var hit := Matches(p, text, next)[k'];
      assert Matches(p, text, from)[k] == hit && hit.index <= j < hit.index + hit.length;
    } else {
      MatchesFirst(p, text, from);
      k := 0;
      assert Matches(p, text, from)[0] == m && m.index <= j < next;
    }
  }
}
