/** The line-number fix-up: a JSON error message counts lines from the start of the
    block text, and the fix-up shifts the number it names by the index of a line that
    opened a block of the same file. */
module Corrector {
  import opened Text
  import opened Extractor

  datatype Option<T> = None | Some(value: T)

  /** The end of the run of decimal digits that starts at `j`. */
  function SkipDigits(s: string, j: nat): (r: nat)
    requires j <= |s|
    ensures j <= r <= |s| && AllDigits(s[j..r]) && (r < |s| ==> !IsDigit(s[r]))
    decreases |s| - j
  {
    if j < |s| && IsDigit(s[j]) then SkipDigits(s, j + 1) else j
  }

  /** `line\s\d+\scolumn` matches at `j` with its digits ending at `e`. */
  predicate MatchShape(msg: string, j: nat, e: nat) {
    j + 5 < e < |msg| && msg[j..j + 4] == "line" && IsSpace(msg[j + 4]) &&
    AllDigits(msg[j + 5..e]) && IsSpace(msg[e]) && StartsWith(msg[e + 1..], "column")
  }

  /** The same pattern as a scan: a digit is never whitespace, so the digits of a
      match are the whole run. */
  predicate MatchAt(msg: string, j: nat) {
    j + 5 <= |msg| && msg[j..j + 4] == "line" && IsSpace(msg[j + 4]) &&
    var e := SkipDigits(msg, j + 5);
    j + 5 < e < |msg| && IsSpace(msg[e]) && StartsWith(msg[e + 1..], "column")
  }

  lemma MatchAtShape(msg: string, j: nat)
    ensures MatchAt(msg, j) <==> exists e: nat :: MatchShape(msg, j, e)
  {
    if MatchAt(msg, j) {
      assert MatchShape(msg, j, SkipDigits(msg, j + 5));
    }
    if e: nat :| MatchShape(msg, j, e) {
      var r := SkipDigits(msg, j + 5);
      if r < e {
        assert msg[j + 5..e][r - (j + 5)] == msg[r];
      } else if e < r {
        assert msg[j + 5..r][e - (j + 5)] == msg[e];
      }
    }
  }

  /** Where the digits of a match at `j` end. */
  function DigitsEnd(msg: string, j: nat): (e: nat)
    requires MatchAt(msg, j)
    ensures j + 5 < e < |msg| && MatchShape(msg, j, e)
  {
    SkipDigits(msg, j + 5)
  }

  /** The line number a match at `j` names, as `int` reads its digits. */
  function LineNumberAt(msg: string, j: nat): nat
    requires MatchAt(msg, j)
  {
    DigitsValue(msg[j + 5..DigitsEnd(msg, j)])
  }

  /** `re.search`: the leftmost match at or after `j`. */
  function FindLineColumn(msg: string, j: nat): (r: Option<nat>)
    requires j <= |msg|
    ensures r.Some? ==> j <= r.value && MatchAt(msg, r.value) &&
                        forall k :: j <= k < r.value ==> !MatchAt(msg, k)
    ensures r.None? ==> forall k :: j <= k <= |msg| ==> !MatchAt(msg, k)
    decreases |msg| - j
  {
    if MatchAt(msg, j) then Some(j)
    else if j == |msg| then None
    else FindLineColumn(msg, j + 1)
  }

  /** A message the fix-up can read a line number from. */
  predicate HasLineColumn(msg: string) {
    FindLineColumn(msg, 0).Some?
  }

  /** The fix-up as written: every ` N ` in the message, with `N` the first line number,
      becomes ` N+offset `, wherever it stands. A zero offset leaves every message as
      it was. */
  function CorrectMessage(msg: string, offset: nat): (r: string)
    requires HasLineColumn(msg)
    ensures offset == 0 ==> r == msg
  {
    var j := FindLineColumn(msg, 0).value;
    var n := LineNumberAt(msg, j);
    ReplaceAllSelf(msg, " " + Decimal(n) + " ");
    ReplaceAll(msg, " " + Decimal(n) + " ", " " + Decimal(n + offset) + " ")
  }

  /** The fix-up as evidently intended: only the digits of the first match change, to
      the shifted line number. */
  function CorrectMessageIntended(msg: string, offset: nat): (r: string)
    requires HasLineColumn(msg)
    ensures var j := FindLineColumn(msg, 0).value;
            var e := DigitsEnd(msg, j);
            MatchAt(r, j) && LineNumberAt(r, j) == LineNumberAt(msg, j) + offset &&
            r[..j + 5] == msg[..j + 5] && r[DigitsEnd(r, j)..] == msg[e..]
  {
    var j := FindLineColumn(msg, 0).value;
    var e := DigitsEnd(msg, j);
    var n := LineNumberAt(msg, j);
    var ds := Decimal(n + offset);
    var r := msg[..j + 5] + ds + msg[e..];
    ShiftedMatch(msg, j, e, ds, r);
    DigitsValueOfDecimal(n + offset);
    r
  }

  /** Splicing a run of digits in place of a match's digits keeps the match, now with
      those digits. */
  lemma ShiftedMatch(msg: string, j: nat, e: nat, ds: string, r: string)
    requires MatchShape(msg, j, e) && ds != [] && AllDigits(ds)
    requires r == msg[..j + 5] + ds + msg[e..]
    ensures MatchAt(r, j) && DigitsEnd(r, j) == j + 5 + |ds| && r[j + 5..DigitsEnd(r, j)] == ds
    ensures r[..j + 5] == msg[..j + 5] && r[DigitsEnd(r, j)..] == msg[e..]
  {
    var e' := j + 5 + |ds|;
    assert r[j..j + 4] == msg[j..j + 4];
    assert r[j + 4] == msg[j + 4];
    assert r[j + 5..e'] == ds;
    assert r[e'..] == msg[e..];
    assert r[e'] == msg[e];
    assert r[e' + 1..] == msg[e + 1..];
    assert MatchShape(r, j, e');
    MatchAtShape(r, j);
  }

  /** `pat` occurs in `s` at `m`. */
  predicate OccursAt(s: string, m: int, pat: string) {
    0 <= m && m + |pat| <= |s| && s[m..m + |pat|] == pat
  }

  /** `pat` occurs in `s` nowhere but at `k`. */
  ghost predicate OnlyAt(s: string, k: int, pat: string) {
    forall m :: OccursAt(s, m, pat) ==> m == k
  }

  lemma StartsWithOccurs(s: string, k: nat, pat: string)
    requires k <= |s|
    ensures StartsWith(s[k..], pat) <==> OccursAt(s, k, pat)
  {
    if k + |pat| <= |s| {
      assert s[k..][..|pat|] == s[k..k + |pat|];
    }
  }

  /** No occurrence at or after `k` means none in `s[k..]`. */
  lemma {:induction false} NoOccurrenceAfter(s: string, k: nat, pat: string, except: int)
    requires k <= |s| && except < k && OnlyAt(s, except, pat)
    ensures !Contains(s[k..], pat)
    decreases |s| - k
  {
    StartsWithOccurs(s, k, pat);
    if k < |s| {
      NoOccurrenceAfter(s, k + 1, pat, except);
      assert s[k..][1..] == s[k + 1..];
    }
  }

  /** Replacing a pattern that occurs exactly once, at `k`, splices the replacement in
      there. */
  lemma ReplaceOnce(s: string, k: nat, pat: string, rep: string)
    requires pat != "" && OccursAt(s, k, pat) && OnlyAt(s, k, pat)
    ensures ReplaceAll(s, pat, rep) == s[..k] + rep + s[k + |pat|..]
  {
    forall j | 0 <= j < k
      ensures !StartsWith(s[j..], pat)
    {
      StartsWithOccurs(s, j, pat);
    }
    ReplaceAllSkip(s, k, pat, rep);
    var rest := s[k + |pat|..];
    assert s[k..] == pat + rest;
    ReplaceAllHead(pat, rest, rep);
    NoOccurrenceAfter(s, k + |pat|, pat, k);
    ReplaceAllAbsent(rest, pat, rep);
  }

  /** Replacing the spaced digits `d` at `k` by spaced digits `d'` swaps the digits. */
  lemma SpliceSpaced(s: string, k: nat, d: string, d': string)
    requires OccursAt(s, k, " " + d + " ")
    ensures s[..k] + (" " + d' + " ") + s[k + |d| + 2..] == s[..k + 1] + d' + s[k + 1 + |d|..]
  {
    var e := k + 1 + |d|;
    assert s[k] == ' ' by {
      assert s[k..k + |d| + 2][0] == s[k];
    }
    assert s[e] == ' ' by {
      assert s[k..k + |d| + 2][|d| + 1] == s[e];
      assert (" " + d + " ")[|d| + 1] == ' ';
    }
    assert s[..k + 1] == s[..k] + [s[k]];
    assert s[e..] == [s[e]] + s[e + 1..];
  }

  /** A canonical number between two spaces is its own decimal form, spaced. */
  lemma SpacedNumberOccurs(msg: string, j: nat, e: nat)
    requires j + 5 < e < |msg| && msg[j + 4] == ' ' && msg[e] == ' ' && Canonical(msg[j + 5..e])
    ensures Decimal(DigitsValue(msg[j + 5..e])) == msg[j + 5..e]
    ensures OccursAt(msg, j + 4, " " + Decimal(DigitsValue(msg[j + 5..e])) + " ")
  {
    var d := Decimal(DigitsValue(msg[j + 5..e]));
    DecimalOfDigitsValue(msg[j + 5..e]);
    assert msg[j + 4..e + 1] == msg[j + 4..j + 5] + msg[j + 5..e] + msg[e..e + 1];
    assert msg[j + 4..j + 5] == " " && msg[e..e + 1] == " ";
  }

  /** Replacing spaced digits that occur once swaps the digits. */
  lemma ReplaceSpacedOnce(s: string, k: nat, d: string, d': string)
    requires OccursAt(s, k, " " + d + " ") && OnlyAt(s, k, " " + d + " ")
    ensures ReplaceAll(s, " " + d + " ", " " + d' + " ") == s[..k + 1] + d' + s[k + 1 + |d|..]
  {
    ReplaceOnce(s, k, " " + d + " ", " " + d' + " ");
    SpliceSpaced(s, k, d, d');
  }

  /** Where the line number is written canonically, between two spaces, and its
      spaced form occurs nowhere else, the fix-up as written is the intended one. */
  lemma AsWrittenAgreesWithIntended(msg: string, offset: nat)
    requires HasLineColumn(msg)
    requires var j := FindLineColumn(msg, 0).value;
             var e := DigitsEnd(msg, j);
             Canonical(msg[j + 5..e]) && msg[j + 4] == ' ' && msg[e] == ' ' &&
             OnlyAt(msg, j + 4, " " + Decimal(LineNumberAt(msg, j)) + " ")
    ensures CorrectMessage(msg, offset) == CorrectMessageIntended(msg, offset)
  {
    var j := FindLineColumn(msg, 0).value;
    var e := DigitsEnd(msg, j);
    var n := LineNumberAt(msg, j);
    var d := Decimal(n);
    var d' := Decimal(n + offset);
    var pat := " " + d + " ";
    SpacedNumberOccurs(msg, j, e);
    assert CorrectMessage(msg, offset) == ReplaceAll(msg, pat, " " + d' + " ");
    assert CorrectMessageIntended(msg, offset) == msg[..j + 5] + d' + msg[e..];
    assert e == j + 5 + |d|;
    ReplaceSpacedOnce(msg, j + 4, d, d');
  }

  /** The message of a JSON error at the very first character of a block. */
  const FirstCharError := "line 1 column 1 (char 0)"

  lemma FirstCharErrorLine(msg: string)
    requires msg == FirstCharError
    ensures HasLineColumn(msg) && FindLineColumn(msg, 0) == Some(0)
    ensures DigitsEnd(msg, 0) == 6 && LineNumberAt(msg, 0) == 1
  {
    assert msg[..4] == "line";
    assert msg[5] == '1' && msg[6] == ' ';
    assert SkipDigits(msg, 6) == 6;
    assert SkipDigits(msg, 5) == 6;
    assert msg[7..][..6] == "column";
    assert MatchAt(msg, 0);
    assert msg[5..6] == "1";
    assert DigitsValue("1") == 1 by {
      assert "1"[..0] == [];
    }
  }

  /** A pattern that occurs exactly twice, with text free of its first character
      before and between, is replaced in both places. */
  lemma ReplaceTwice(a: string, b: string, c: string, pat: string, rep: string)
    requires pat != "" && pat[0] !in a && pat[0] !in b && !Contains(c, pat)
    ensures ReplaceAll(a + pat + b + pat + c, pat, rep) == a + rep + b + rep + c
  {
    Regroup(a, pat, b, pat, c);
    ReplaceFirst(a, b + (pat + c), pat, rep);
    ReplaceFirst(b, c, pat, rep);
    ReplaceAllAbsent(c, pat, rep);
    Regroup(a, rep, b, rep, c);
  }

  lemma Regroup(a: string, p: string, b: string, q: string, c: string)
    ensures a + p + b + q + c == a + (p + (b + (q + c)))
  {
  }

  /** Text free of the pattern's first character, then the pattern: the first
      replacement comes right after that text. */
  lemma ReplaceFirst(x: string, y: string, pat: string, rep: string)
    requires pat != "" && pat[0] !in x
    ensures ReplaceAll(x + (pat + y), pat, rep) == x + (rep + ReplaceAll(y, pat, rep))
  {
    ReplaceAllPast(x, pat + y, pat, rep);
    ReplaceAllHead(pat, y, rep);
  }

  /** Both spaced ones in the message are replaced. */
  lemma FirstCharErrorReplaced(msg: string)
    requires msg == FirstCharError
    ensures ReplaceAll(msg, " 1 ", " 6 ") == "line 6 column 6 (char 0)"
  {
    FirstCharErrorPieces(msg);
    PiecesReplaced();
  }

  lemma FirstCharErrorPieces(msg: string)
    requires msg == FirstCharError
    ensures msg == "line" + " 1 " + "column" + " 1 " + "(char 0)"
  {
  }

  lemma PiecesReplaced()
    ensures ReplaceAll("line" + " 1 " + "column" + " 1 " + "(char 0)", " 1 ", " 6 ") == "line 6 column 6 (char 0)"
  {
    PiecesReplacedSeparately();
    ShiftedSpelled();
  }

  lemma PiecesReplacedSeparately()
    ensures ReplaceAll("line" + " 1 " + "column" + " 1 " + "(char 0)", " 1 ", " 6 ") ==
            "line" + " 6 " + "column" + " 6 " + "(char 0)"
  {
    NoOnes("(char 0)", " 1 ");
    ReplaceTwice("line", "column", "(char 0)", " 1 ", " 6 ");
  }

  lemma ShiftedSpelled()
    ensures "line" + " 6 " + "column" + " 6 " + "(char 0)" == "line 6 column 6 (char 0)"
  {
  }

  /** A pattern with a character the text lacks does not occur in it. */
  lemma {:induction false} NoOnes(s: string, pat: string)
    requires |pat| >= 2 && pat[1] !in s
    ensures !Contains(s, pat)
    decreases |s|
  {
    if s != [] {
      NoOnes(s[1..], pat);
    }
  }

  /** The reading that the as-written fix-up gets wrong: when the column equals the line
      number, the column is shifted as well. */
  lemma ColumnShiftedToo(msg: string)
    requires msg == FirstCharError
    ensures HasLineColumn(msg)
    ensures CorrectMessage(msg, 5) == "line 6 column 6 (char 0)"
    ensures CorrectMessageIntended(msg, 5) == "line 6 column 1 (char 0)"
  {
    FirstCharErrorLine(msg);
    AsWrittenOnFirstChar(msg);
    IntendedOnFirstChar(msg);
  }

  lemma SpacedOneAndSix()
    ensures " " + Decimal(1) + " " == " 1 " && " " + Decimal(1 + 5) + " " == " 6 "
  {
    assert Decimal(1) == "1" && Decimal(6) == "6";
  }

  lemma AsWrittenOnFirstChar(msg: string)
    requires msg == FirstCharError && HasLineColumn(msg)
    ensures CorrectMessage(msg, 5) == "line 6 column 6 (char 0)"
  {
    FirstCharErrorLine(msg);
    SpacedOneAndSix();
    assert CorrectMessage(msg, 5) == ReplaceAll(msg, " 1 ", " 6 ");
    FirstCharErrorReplaced(msg);
  }

  lemma IntendedOnFirstChar(msg: string)
    requires msg == FirstCharError && HasLineColumn(msg)
    ensures CorrectMessageIntended(msg, 5) == "line 6 column 1 (char 0)"
  {
    FirstCharErrorLine(msg);
    assert Decimal(1 + 5) == "6";
    assert CorrectMessageIntended(msg, 5) == msg[..5] + "6" + msg[6..];
    SplicedSpelled(msg);
  }

  lemma SplicedSpelled(msg: string)
    requires msg == FirstCharError
    ensures msg[..5] + "6" + msg[6..] == "line 6 column 1 (char 0)"
  {
  }

  // The report of a file.

  /** The corrected messages of a file's report: an empty message is dropped. */
  function CorrectReport(report: map<string, string>, offset: nat): (r: map<string, string>)
    requires forall kw :: kw in report && report[kw] != "" ==> HasLineColumn(report[kw])
    ensures forall kw :: kw in r <==> kw in report && report[kw] != ""
  {
    map kw | kw in report && report[kw] != "" :: CorrectMessage(report[kw], offset)
  }

  /** The last keyword, in the order of `Enclosures`, among the first `n` that a file
      has entries for. */
  function LastEnclosure(defs: map<string, set<Entry>>, n: nat): (r: Option<string>)
    requires n <= |Enclosures|
    ensures r.Some? ==> r.value in defs && r.value in Enclosures[..n]
    ensures r.None? ==> forall k :: 0 <= k < n ==> Enclosures[k] !in defs
    ensures r.Some? ==>
      forall k, k' :: 0 <= k < k' < n && Enclosures[k] == r.value ==> Enclosures[k'] !in defs
  {
    if n == 0 then None
    else if Enclosures[n - 1] in defs then Some(Enclosures[n - 1])
    else LastEnclosure(defs, n - 1)
  }

  /** Every keyword's entries hold a start line, as the extractor's always do. */
  predicate Stamped(defs: map<string, set<Entry>>) {
    forall kw :: kw in defs ==> exists e :: e in defs[kw] && e.StartLine?
  }

  /** A file's entries as the extractor yields them: keyed by enclosure keywords, none
      empty of start lines. */
  predicate WellFormed(defs: map<string, set<Entry>>) {
    (forall kw :: kw in defs ==> kw in Enclosures) && Stamped(defs)
  }

  /** The offset: the walk over every keyword's entries, keywords in the order of
      `Enclosures` and each set in any order, keeps the last start line it meets, which
      is therefore one of the last keyword's. */
  method ExtraLines(defs: map<string, set<Entry>>) returns (extra: nat)
    requires WellFormed(defs) && defs != map[]
    ensures LastEnclosure(defs, |Enclosures|).Some?
    ensures StartLine(extra) in defs[LastEnclosure(defs, |Enclosures|).value]
  {
    extra := 0;
    for k := 0 to |Enclosures|
      invariant LastEnclosure(defs, k).Some? ==> StartLine(extra) in defs[LastEnclosure(defs, k).value]
    {
      var kw := Enclosures[k];
      if kw in defs {
        var todo := defs[kw];
        ghost var seen := false;
        while todo != {}
          invariant todo <= defs[kw]
          invariant seen <==> exists e :: e in defs[kw] - todo && e.StartLine?
          invariant seen ==> StartLine(extra) in defs[kw]
          decreases |todo|
        {
          var item :| item in todo;
          if item.StartLine? {
            extra := item.index;
            seen := true;
          }
          todo := todo - {item};
        }
      }
    }
    var kw :| kw in defs;
    assert kw in Enclosures;
  }

  /** The entries of `m` whose keys are in `keys`. */
  function Restrict(m: map<string, string>, keys: set<string>): (r: map<string, string>)
    ensures forall k :: k in r <==> k in m && k in keys
  {
    map k | k in m && k in keys :: m[k]
  }

  /** Widening the keys by one adds that entry, if `m` has it. */
  lemma RestrictAdd(m: map<string, string>, keys: set<string>, k: string)
    ensures Restrict(m, keys + {k}) == if k in m then Restrict(m, keys)[k := m[k]] else Restrict(m, keys)
  {
  }

  lemma RestrictAll(m: map<string, string>, keys: set<string>)
    requires m.Keys <= keys
    ensures Restrict(m, keys) == m
  {
  }

  /** The messages of one file's report, in any order, with one offset. */
  method CorrectFile(report: map<string, string>, offset: nat) returns (corrected: map<string, string>)
    requires forall kw :: kw in report && report[kw] != "" ==> HasLineColumn(report[kw])
    ensures corrected == CorrectReport(report, offset)
  {
    corrected := map[];
    var todo := report.Keys;
    while todo != {}
      invariant todo <= report.Keys
      invariant corrected == Restrict(CorrectReport(report, offset), report.Keys - todo)
      decreases |todo|
    {
      var kw :| kw in todo;
      RestrictAdd(CorrectReport(report, offset), report.Keys - todo, kw);
      var message := report[kw];
      if |message| > 0 {
        corrected := corrected[kw := CorrectMessage(message, offset)];
      }
      assert report.Keys - (todo - {kw}) == (report.Keys - todo) + {kw};
      todo := todo - {kw};
    }
    RestrictAll(CorrectReport(report, offset), report.Keys);
  }

  /** What the fix-up demands of its input: every file with errors has well-formed
      entries, and every non-empty message names a line and a column. */
  predicate Correctable(errors: map<string, map<string, string>>, blocks: map<string, map<string, set<Entry>>>) {
    (forall f :: f in errors ==> f in blocks) &&
    (forall f :: f in errors && errors[f] != map[] ==> blocks[f] != map[] && WellFormed(blocks[f])) &&
    (forall f, kw :: f in errors && kw in errors[f] && errors[f][kw] != "" ==> HasLineColumn(errors[f][kw]))
  }

  /** A file's report after the fix-up: an empty report stays empty, and any other has
      its messages shifted by one start line of the last keyword the file has. */
  ghost predicate Shifted(defs: map<string, set<Entry>>, report: map<string, string>, corrected: map<string, string>) {
    if report == map[] then corrected == map[]
    else
      (forall kw :: kw in report && report[kw] != "" ==> HasLineColumn(report[kw])) &&
      LastEnclosure(defs, |Enclosures|).Some? &&
      exists extra: nat :: StartLine(extra) in defs[LastEnclosure(defs, |Enclosures|).value] &&
                           corrected == CorrectReport(report, extra)
  }

  /** One file: the offset is looked up only when the report has messages. */
  method ShiftFile(defs: map<string, set<Entry>>, report: map<string, string>) returns (corrected: map<string, string>)
    requires forall kw :: kw in report && report[kw] != "" ==> HasLineColumn(report[kw])
    requires report != map[] ==> defs != map[] && WellFormed(defs)
    ensures Shifted(defs, report, corrected)
  {
    corrected := map[];
    if report != map[] {
      var extra := ExtraLines(defs);
      corrected := CorrectFile(report, extra);
    }
  }

  /** Every file keeps its place in the result, with its report shifted. */
  method SubstituteLine(errors: map<string, map<string, string>>, blocks: map<string, map<string, set<Entry>>>)
    returns (corrected: map<string, map<string, string>>)
    requires Correctable(errors, blocks)
    ensures corrected.Keys == errors.Keys
    ensures forall f :: f in corrected ==> f in blocks && Shifted(blocks[f], errors[f], corrected[f])
  {
    corrected := map[];
    var todo := errors.Keys;
    while todo != {}
      invariant todo <= errors.Keys && ShiftedOn(blocks, errors, corrected, todo)
      decreases |todo|
    {
      var f :| f in todo;
      CorrectableFile(errors, blocks, f);
      var report := ShiftFile(blocks[f], errors[f]);
      ShiftedAdd(blocks, errors, corrected, todo, f, report);
      corrected := corrected[f := report];
      todo := todo - {f};
    }
  }

  /** The files outside `todo` have their reports shifted. */
  ghost predicate ShiftedOn(blocks: map<string, map<string, set<Entry>>>, errors: map<string, map<string, string>>,
                            corrected: map<string, map<string, string>>, todo: set<string>) {
    corrected.Keys == errors.Keys - todo &&
    forall f :: f in corrected ==> f in errors && f in blocks && Shifted(blocks[f], errors[f], corrected[f])
  }

  lemma CorrectableFile(errors: map<string, map<string, string>>, blocks: map<string, map<string, set<Entry>>>, f: string)
    requires Correctable(errors, blocks) && f in errors
    ensures f in blocks
    ensures forall kw :: kw in errors[f] && errors[f][kw] != "" ==> HasLineColumn(errors[f][kw])
    ensures errors[f] != map[] ==> blocks[f] != map[] && WellFormed(blocks[f])
  {
  }

  lemma ShiftedAdd(blocks: map<string, map<string, set<Entry>>>, errors: map<string, map<string, string>>,
                   corrected: map<string, map<string, string>>, todo: set<string>, f: string, report: map<string, string>)
    requires ShiftedOn(blocks, errors, corrected, todo) && todo <= errors.Keys
    requires f in todo && f in blocks && Shifted(blocks[f], errors[f], report)
    ensures ShiftedOn(blocks, errors, corrected[f := report], todo - {f})
  {
    assert errors.Keys - (todo - {f}) == (errors.Keys - todo) + {f};
  }
}
