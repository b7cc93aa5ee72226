/** The heredoc block extractor: per enclosure keyword, a state machine over a file's
    lines (each line with its terminator) that captures the lines of every
    `name = <<KEYWORD` ... `KEYWORD` block, substituted, together with the index of the
    line that opened it. Blocks land in a set per keyword, so identical texts, and
    identical start lines, are recorded once. */
module Extractor {
  import opened Text
  import Substituter

  /** The heredoc tags looked for, in the order they are processed. */
  const Enclosures: seq<string> := ["DEFINITION", "EOF", "INPUT", "PATTERN", "POLICY"]

  /** A member of a keyword's set: the text of a block, or the 0-based index of the line
      that opened a block. Both kinds share one set, as in the source. */
  datatype Entry = Block(text: string) | StartLine(index: nat)

  // The three patterns.

  /** `\s*\S+\s+=\s+<<KEYWORD` matches at index 0 with its runs split at `a`, `b`, `c`
      (the `=`) and `d` (the `<<`). */
  predicate OpensAt(line: string, kw: string, a: int, b: int, c: int, d: int) {
    0 <= a < b < c && c + 1 < d <= |line| &&
    AllSpace(line[..a]) && NoSpace(line[a..b]) && AllSpace(line[b..c]) &&
    line[c] == '=' && AllSpace(line[c + 1..d]) && StartsWith(line[d..], "<<" + kw)
  }

  /** What `re.compile('\s*\S+\s+=\s+<<' + kw).match(line)` decides: anchored at the start
      of the line only, and anything may follow the keyword. */
  ghost predicate OpensPattern(line: string, kw: string) {
    exists a, b, c, d :: OpensAt(line, kw, a, b, c, d)
  }

  /** The same pattern as a scan: since `=` and `<` are not whitespace, every run is
      maximal and there is nothing to backtrack. Whitespace is required on both sides
      of the `=`, so the shortest opening line is `x = <<kw`. */
  predicate Opens(line: string, kw: string)
    ensures Opens(line, kw) ==> |line| >= |kw| + 6
  {
    var a := SkipSpaces(line, 0);
    var b := SkipNonSpaces(line, a);
    var c := SkipSpaces(line, b);
    a < b < c < |line| && line[c] == '=' &&
    var d := SkipSpaces(line, c + 1);
    c + 1 < d && StartsWith(line[d..], "<<" + kw)
  }

  /** The scan accepts exactly the lines the regular expression matches. */
  lemma OpensMatchesPattern(line: string, kw: string)
    ensures Opens(line, kw) <==> OpensPattern(line, kw)
  {
    if Opens(line, kw) {
      ScanFindsPattern(line, kw);
    }
    if OpensPattern(line, kw) {
      var a, b, c, d :| OpensAt(line, kw, a, b, c, d);
      PatternIsScan(line, kw, a, b, c, d);
    }
  }

  lemma ScanFindsPattern(line: string, kw: string)
    requires Opens(line, kw)
    ensures OpensPattern(line, kw)
  {
    var a := SkipSpaces(line, 0);
    var b := SkipNonSpaces(line, a);
    var c := SkipSpaces(line, b);
    var d := SkipSpaces(line, c + 1);
    SkipSpacesRun(line, 0);
    SkipNonSpacesRun(line, a);
    SkipSpacesRun(line, b);
    SkipSpacesRun(line, c + 1);
    assert line[..a] == line[0..a];
    assert OpensAt(line, kw, a, b, c, d);
  }

  /** Every match of the pattern splits its runs where the scan does. */
  lemma PatternIsScan(line: string, kw: string, a: int, b: int, c: int, d: int)
    requires OpensAt(line, kw, a, b, c, d)
    ensures Opens(line, kw)
  {
    NameRuns(line, kw, a, b, c, d);
    AssignmentRuns(line, kw, a, b, c, d);
  }

  /** The leading spaces end at `a` and the name at `b`. */
  lemma NameRuns(line: string, kw: string, a: int, b: int, c: int, d: int)
    requires OpensAt(line, kw, a, b, c, d)
    ensures SkipSpaces(line, 0) == a && SkipNonSpaces(line, a) == b
  {
    assert line[a..b][0] == line[a];
    assert line[..a] == line[0..a];
    SkipSpacesExact(line, 0, a);
    assert line[b..c][0] == line[b];
    SkipNonSpacesExact(line, a, b);
  }

  /** The spaces before `=` end at `c` and those after it at `d`. */
  lemma AssignmentRuns(line: string, kw: string, a: int, b: int, c: int, d: int)
    requires OpensAt(line, kw, a, b, c, d)
    ensures SkipSpaces(line, b) == c && SkipSpaces(line, c + 1) == d
  {
    SkipSpacesExact(line, b, c);
    assert line[d..][0] == '<';
    SkipSpacesExact(line, c + 1, d);
  }

  /** A block closes on a line that STARTS with the keyword (`re.compile(kw).match`). */
  predicate Closes(line: string, kw: string) {
    StartsWith(line, kw)
  }

  // The state machine.

  /** The per-keyword state: whether lines are being captured, the text captured so far,
      the set of entries, the index of the line that opened the current block, and the
      number of lines read. */
  datatype Extraction = Extraction(capturing: bool, definition: string, found: set<Entry>, start: nat, lineNo: nat)

  const Initial: Extraction := Extraction(false, "", {}, 0, 0)

  /** One line. While capturing, a line that does not contain the keyword anywhere is
      substituted and appended; the closing test then looks at the substituted line. */
  function ExtractStep(kw: string, st: Extraction, line: string): (r: PyResult<Extraction>)
    ensures r.Ok? ==> r.value.lineNo == st.lineNo + 1 && st.found <= r.value.found
    ensures r.IndexError? ==> st.capturing && !Contains(line, kw)
  {
    if !st.capturing then
      if Opens(line, kw) && Closes(line, kw) then
        Ok(Extraction(false, "", st.found + {Block(st.definition), StartLine(st.lineNo)}, st.lineNo, st.lineNo + 1))
      else if Opens(line, kw) then
        Ok(Extraction(true, st.definition, st.found, st.lineNo, st.lineNo + 1))
      else
        Ok(Extraction(false, st.definition, st.found, st.start, st.lineNo + 1))
    else if Contains(line, kw) then
      CaptureOrClose(st, line, st.definition, kw)
    else match Substituter.Substitute(line)
      case IndexError => IndexError
      case Ok(line') => CaptureOrClose(st, line', st.definition + line', kw)
  }

  /** The rest of a captured line: it closes the block when it starts with the keyword. */
  function CaptureOrClose(st: Extraction, line: string, definition: string, kw: string): PyResult<Extraction> {
    if Closes(line, kw) then
      Ok(Extraction(false, "", st.found + {Block(definition), StartLine(st.start)}, st.start, st.lineNo + 1))
    else
      Ok(Extraction(true, definition, st.found, st.start, st.lineNo + 1))
  }

  /** The state machine run over `lines[p..]` from state `st`. */
  function ExtractFrom(kw: string, lines: seq<string>, p: nat, st: Extraction): PyResult<Extraction>
    requires p <= |lines|
    decreases |lines| - p
  {
    if p == |lines| then Ok(st)
    else match ExtractStep(kw, st, lines[p])
      case IndexError => IndexError
      case Ok(st') => ExtractFrom(kw, lines, p + 1, st')
  }

  /** The entries one keyword yields for one file. */
  function Extract(lines: seq<string>, kw: string): PyResult<set<Entry>> {
    match ExtractFrom(kw, lines, 0, Initial)
    case IndexError => IndexError
    case Ok(st) => Ok(st.found)
  }

  /** The state machine as the source runs it, for one keyword over one file. */
  method ExtractBlocks(lines: seq<string>, kw: string) returns (r: PyResult<set<Entry>>)
    ensures r == Extract(lines, kw)
  {
    var captureLines := false;
    var definition := "";
    var setOfDefinitions: set<Entry> := {};
    var startingLine: nat := 0;
    var noOfLines: nat := 0;
    for n := 0 to |lines|
      invariant ExtractFrom(kw, lines, n, Extraction(captureLines, definition, setOfDefinitions, startingLine, noOfLines))
             == ExtractFrom(kw, lines, 0, Initial)
    {
      ghost var before := Extraction(captureLines, definition, setOfDefinitions, startingLine, noOfLines);
      var line := lines[n];
      if captureLines && !Contains(line, kw) {
        var sub := Substituter.SubstituteTfVars(line);
        if sub.IndexError? {
          return IndexError;
        }
        line := sub.value;
        definition := definition + line;
      }
      if !captureLines && Opens(line, kw) {
        startingLine := noOfLines;
        captureLines := true;
      }
      if captureLines && Closes(line, kw) {
        captureLines := false;
        setOfDefinitions := setOfDefinitions + {Block(definition), StartLine(startingLine)};
        definition := "";
      }
      noOfLines := noOfLines + 1;
      assert ExtractStep(kw, before, lines[n]) == Ok(Extraction(captureLines, definition, setOfDefinitions, startingLine, noOfLines));
    }
    r := Ok(setOfDefinitions);
  }

  // What the state machine records.

  /** The state after the first `p` lines: everything recorded so far names a line that
      opens a block, and a block's text never goes in without its start line. */
  ghost predicate Sound(kw: string, lines: seq<string>, p: nat, st: Extraction)
    requires p <= |lines|
  {
    st.lineNo == p &&
    (st.capturing ==> st.start < p && Opens(lines[st.start], kw)) &&
    (forall i: nat :: StartLine(i) in st.found ==> i < p && Opens(lines[i], kw)) &&
    ((exists t :: Block(t) in st.found) <==> (exists i: nat :: StartLine(i) in st.found))
  }

  lemma ExtractStepSound(kw: string, lines: seq<string>, p: nat, st: Extraction)
    requires p < |lines| && Sound(kw, lines, p, st)
    requires ExtractStep(kw, st, lines[p]).Ok?
    ensures Sound(kw, lines, p + 1, ExtractStep(kw, st, lines[p]).value)
  {
    var st' := ExtractStep(kw, st, lines[p]).value;
    if st'.found != st.found {
      var t :| st'.found == st.found + {Block(t), StartLine(st'.start)};
      assert Block(t) in st'.found && StartLine(st'.start) in st'.found;
    }
  }

  lemma {:induction false} ExtractFromSound(kw: string, lines: seq<string>, p: nat, st: Extraction)
    requires p <= |lines| && Sound(kw, lines, p, st)
    requires ExtractFrom(kw, lines, p, st).Ok?
    ensures Sound(kw, lines, |lines|, ExtractFrom(kw, lines, p, st).value)
    decreases |lines| - p
  {
    if p < |lines| {
      ExtractStepSound(kw, lines, p, st);
      ExtractFromSound(kw, lines, p + 1, ExtractStep(kw, st, lines[p]).value);
    }
  }

  /** Every recorded start line is a line that opens a block, and block texts and start
      lines are recorded together: a keyword's set is empty or holds both kinds. */
  lemma ExtractSound(lines: seq<string>, kw: string)
    requires Extract(lines, kw).Ok?
    ensures forall i: nat :: StartLine(i) in Extract(lines, kw).value ==> i < |lines| && Opens(lines[i], kw)
    ensures (exists t :: Block(t) in Extract(lines, kw).value) <==> (exists i: nat :: StartLine(i) in Extract(lines, kw).value)
  {
    ExtractFromSound(kw, lines, 0, Initial);
  }

  /** Entries are only ever added. */
  lemma {:induction false} ExtractFromGrows(kw: string, lines: seq<string>, p: nat, st: Extraction)
    requires p <= |lines| && ExtractFrom(kw, lines, p, st).Ok?
    ensures st.found <= ExtractFrom(kw, lines, p, st).value.found
    decreases |lines| - p
  {
    if p < |lines| {
      ExtractFromGrows(kw, lines, p + 1, ExtractStep(kw, st, lines[p]).value);
    }
  }

  /** Outside a block, lines that open none are only counted. */
  lemma {:induction false} IdleUntil(kw: string, lines: seq<string>, p: nat, o: nat, found: set<Entry>, s: nat)
    requires p <= o <= |lines|
    requires forall j :: p <= j < o ==> !Opens(lines[j], kw)
    ensures ExtractFrom(kw, lines, p, Extraction(false, "", found, s, p))
         == ExtractFrom(kw, lines, o, Extraction(false, "", found, s, o))
    decreases o - p
  {
    if p < o {
      assert ExtractStep(kw, Extraction(false, "", found, s, p), lines[p]) == Ok(Extraction(false, "", found, s, p + 1));
      IdleUntil(kw, lines, p + 1, o, found, s);
    }
  }

  /** A file in which no line opens a block yields no entries. */
  lemma ExtractWithoutOpener(lines: seq<string>, kw: string)
    requires forall j :: 0 <= j < |lines| ==> !Opens(lines[j], kw)
    ensures Extract(lines, kw) == Ok({})
  {
    IdleUntil(kw, lines, 0, |lines|, {}, 0);
  }

  /** What a captured line contributes to the block text: nothing when it mentions the
      keyword anywhere, its substituted form otherwise. */
  function Piece(kw: string, line: string): string {
    if Contains(line, kw) then ""
    else match Substituter.Substitute(line)
      case Ok(v) => v
      case IndexError => ""
  }

  /** `acc` followed by the pieces of the lines from `p` up to, not including, `c`. */
  function Gather(kw: string, lines: seq<string>, p: nat, c: nat, acc: string): string
    requires p <= c <= |lines|
    decreases c - p
  {
    if p == c then acc else Gather(kw, lines, p + 1, c, acc + Piece(kw, lines[p]))
  }

  /** The text of a block opened on line `o` and closed on line `c`: the pieces of the
      lines strictly between them. */
  function Body(kw: string, lines: seq<string>, o: nat, c: nat): string
    requires o <= c <= |lines|
  {
    if c <= o + 1 then "" else Gather(kw, lines, o + 1, c, "")
  }

  /** Every line strictly between `o` and `c` that gets substituted substitutes without
      an error. */
  predicate Substitutes(kw: string, lines: seq<string>, o: nat, c: nat)
    requires c <= |lines|
  {
    forall j :: o < j < c ==> Contains(lines[j], kw) || Substituter.Substitute(lines[j]).Ok?
  }

  /** A line captured inside a block: neither it nor, when it gets substituted, its
      substituted form starts with the keyword, and the substitution raises no error. */
  predicate Captured(kw: string, line: string) {
    !StartsWith(line, kw) &&
    (Contains(line, kw) || (Substituter.Substitute(line).Ok? && !StartsWith(Substituter.Substitute(line).value, kw)))
  }

  /** For a keyword foreign to the placeholder, a substituted line never starts with it. */
  lemma CapturedLine(kw: string, line: string)
    requires Substituter.Foreign(kw) && !StartsWith(line, kw)
    requires Contains(line, kw) || Substituter.Substitute(line).Ok?
    ensures Captured(kw, line)
  {
    if !Contains(line, kw) {
      Substituter.SubstituteKeepsAbsent(line, kw);
      assert !StartsWith(Substituter.Substitute(line).value, kw);
    }
  }

  /** One captured line: its piece is appended. */
  lemma CaptureStep(kw: string, line: string, st: Extraction)
    requires st.capturing && Captured(kw, line)
    ensures ExtractStep(kw, st, line)
         == Ok(Extraction(true, st.definition + Piece(kw, line), st.found, st.start, st.lineNo + 1))
  {
    if Contains(line, kw) {
      assert st.definition + Piece(kw, line) == st.definition;
    }
  }

  /** Running from line `p` in state `st` ends as running from line `q` in state `st'`. */
  predicate Resumes(kw: string, lines: seq<string>, p: nat, st: Extraction, q: nat, st': Extraction)
    requires p <= |lines| && q <= |lines|
  {
    ExtractFrom(kw, lines, p, st) == ExtractFrom(kw, lines, q, st')
  }

  /** Inside a block, lines are captured up to the first line that starts with the
      keyword, each adding its piece to the text. */
  lemma {:induction false} CaptureUntil(kw: string, lines: seq<string>, o: nat, p: nat, c: nat, found: set<Entry>, acc: string)
    requires p <= c < |lines|
    requires forall j {:trigger Captured(kw, lines[j])} :: p <= j < c ==> Captured(kw, lines[j])
    ensures Resumes(kw, lines, p, Extraction(true, acc, found, o, p), c, Extraction(true, Gather(kw, lines, p, c, acc), found, o, c))
    decreases c - p
  {
    if p < c {
      CaptureNext(kw, lines, o, p, found, acc);
      CaptureUntil(kw, lines, o, p + 1, c, found, acc + Piece(kw, lines[p]));
    }
  }

  /** One captured line: its piece is appended to the text. */
  lemma CaptureNext(kw: string, lines: seq<string>, o: nat, p: nat, found: set<Entry>, acc: string)
    requires p < |lines| && Captured(kw, lines[p])
    ensures Resumes(kw, lines, p, Extraction(true, acc, found, o, p),
                    p + 1, Extraction(true, acc + Piece(kw, lines[p]), found, o, p + 1))
  {
    var st := Extraction(true, acc, found, o, p);
    CaptureStep(kw, lines[p], st);
    ExtractFromStep(kw, lines, p, st, Extraction(true, acc + Piece(kw, lines[p]), found, o, p + 1));
  }

  /** The line that opens a block outside a block, whatever was recorded before; it
      closes the block at once when it also starts with the keyword. */
  lemma OpenStep(kw: string, line: string, found: set<Entry>, s: nat, n: nat)
    requires Opens(line, kw)
    ensures ExtractStep(kw, Extraction(false, "", found, s, n), line)
         == Ok(if StartsWith(line, kw) then Extraction(false, "", found + {Block(""), StartLine(n)}, n, n + 1)
               else Extraction(true, "", found, n, n + 1))
  {
  }

  /** Running from line `p` is one step followed by running from line `p + 1`. */
  lemma ExtractFromStep(kw: string, lines: seq<string>, p: nat, st: Extraction, st': Extraction)
    requires p < |lines| && ExtractStep(kw, st, lines[p]) == Ok(st')
    ensures ExtractFrom(kw, lines, p, st) == ExtractFrom(kw, lines, p + 1, st')
  {
  }

  /** A line that starts with the keyword closes the block being captured. */
  lemma CloseStep(kw: string, line: string, st: Extraction)
    requires st.capturing && StartsWith(line, kw)
    ensures ExtractStep(kw, st, line)
         == Ok(Extraction(false, "", st.found + {Block(st.definition), StartLine(st.start)}, st.start, st.lineNo + 1))
  {
    assert Contains(line, kw);
  }

  /** The next block, whatever was recorded before it: read from outside a block at line
      `p`, it opens on the first line from `p` on that the start pattern matches and
      closes on the first line from there on that starts with the keyword (the opening
      line itself included); its text and its start line are added. */
  lemma NextBlock(kw: string, lines: seq<string>, p: nat, o: nat, c: nat, found: set<Entry>, s: nat)
    requires Substituter.Foreign(kw)
    requires p <= o <= c < |lines|
    requires forall j :: p <= j < o ==> !Opens(lines[j], kw)
    requires Opens(lines[o], kw) && StartsWith(lines[c], kw)
    requires forall j :: o <= j < c ==> !StartsWith(lines[j], kw)
    requires Substitutes(kw, lines, o, c)
    ensures ExtractFrom(kw, lines, p, Extraction(false, "", found, s, p))
         == ExtractFrom(kw, lines, c + 1, Extraction(false, "", found + {Block(Body(kw, lines, o, c)), StartLine(o)}, o, c + 1))
  {
    IdleUntil(kw, lines, p, o, found, s);
    if o == c {
      OneLineBlock(kw, lines, o, found, s);
    } else {
      SpannedBlock(kw, lines, o, c, found, s);
    }
  }

  /** The first block of a file: the next block read from the first line. */
  lemma FirstBlock(kw: string, lines: seq<string>, o: nat, c: nat)
    requires Substituter.Foreign(kw)
    requires o <= c < |lines|
    requires forall j :: 0 <= j < o ==> !Opens(lines[j], kw)
    requires Opens(lines[o], kw) && StartsWith(lines[c], kw)
    requires forall j :: o <= j < c ==> !StartsWith(lines[j], kw)
    requires Substitutes(kw, lines, o, c)
    ensures ExtractFrom(kw, lines, 0, Initial)
         == ExtractFrom(kw, lines, c + 1, Extraction(false, "", {Block(Body(kw, lines, o, c)), StartLine(o)}, o, c + 1))
  {
    NextBlock(kw, lines, 0, o, c, {}, 0);
    assert {} + {Block(Body(kw, lines, o, c)), StartLine(o)} == {Block(Body(kw, lines, o, c)), StartLine(o)};
  }

  /** A block opened and closed on the same line has an empty text. */
  lemma OneLineBlock(kw: string, lines: seq<string>, o: nat, found: set<Entry>, s: nat)
    requires o < |lines| && Opens(lines[o], kw) && StartsWith(lines[o], kw)
    ensures ExtractFrom(kw, lines, o, Extraction(false, "", found, s, o))
         == ExtractFrom(kw, lines, o + 1, Extraction(false, "", found + {Block(Body(kw, lines, o, o)), StartLine(o)}, o, o + 1))
  {
    OpenStep(kw, lines[o], found, s, o);
    ExtractFromStep(kw, lines, o, Extraction(false, "", found, s, o),
                    Extraction(false, "", found + {Block(""), StartLine(o)}, o, o + 1));
  }

  /** A block closed on a later line holds the pieces of the lines in between. */
  lemma SpannedBlock(kw: string, lines: seq<string>, o: nat, c: nat, found: set<Entry>, s: nat)
    requires Substituter.Foreign(kw)
    requires o < c < |lines|
    requires Opens(lines[o], kw) && StartsWith(lines[c], kw)
    requires forall j :: o <= j < c ==> !StartsWith(lines[j], kw)
    requires Substitutes(kw, lines, o, c)
    ensures ExtractFrom(kw, lines, o, Extraction(false, "", found, s, o))
         == ExtractFrom(kw, lines, c + 1, Extraction(false, "", found + {Block(Body(kw, lines, o, c)), StartLine(o)}, o, c + 1))
  {
    OpenAt(kw, lines, o, found, s);
    CaptureFrom(kw, lines, o, c, found);
    CloseAt(kw, lines, o, c, found);
  }

  /** The lines after the opening one are captured up to the closing one. */
  lemma CaptureFrom(kw: string, lines: seq<string>, o: nat, c: nat, found: set<Entry>)
    requires Substituter.Foreign(kw)
    requires o < c < |lines|
    requires forall j :: o < j < c ==> !StartsWith(lines[j], kw)
    requires Substitutes(kw, lines, o, c)
    ensures ExtractFrom(kw, lines, o + 1, Extraction(true, "", found, o, o + 1))
         == ExtractFrom(kw, lines, c, Extraction(true, Body(kw, lines, o, c), found, o, c))
  {
    forall j | o + 1 <= j < c
      ensures Captured(kw, lines[j])
    {
      CapturedLine(kw, lines[j]);
    }
    CaptureUntil(kw, lines, o, o + 1, c, found, "");
  }

  /** An opening line that does not close the block starts the capture. */
  lemma OpenAt(kw: string, lines: seq<string>, o: nat, found: set<Entry>, s: nat)
    requires o < |lines| && Opens(lines[o], kw) && !StartsWith(lines[o], kw)
    ensures ExtractFrom(kw, lines, o, Extraction(false, "", found, s, o))
         == ExtractFrom(kw, lines, o + 1, Extraction(true, "", found, o, o + 1))
  {
    OpenStep(kw, lines[o], found, s, o);
    ExtractFromStep(kw, lines, o, Extraction(false, "", found, s, o), Extraction(true, "", found, o, o + 1));
  }

  /** The closing line adds the text captured so far and its start line. */
  lemma CloseAt(kw: string, lines: seq<string>, o: nat, c: nat, found: set<Entry>)
    requires o <= c < |lines| && StartsWith(lines[c], kw)
    ensures ExtractFrom(kw, lines, c, Extraction(true, Body(kw, lines, o, c), found, o, c))
         == ExtractFrom(kw, lines, c + 1, Extraction(false, "", found + {Block(Body(kw, lines, o, c)), StartLine(o)}, o, c + 1))
  {
    var last := Extraction(true, Body(kw, lines, o, c), found, o, c);
    CloseStep(kw, lines[c], last);
    ExtractFromStep(kw, lines, c, last,
                    Extraction(false, "", found + {Block(Body(kw, lines, o, c)), StartLine(o)}, o, c + 1));
  }

  /** Whatever follows, a block that the state machine reaches from outside a block
      stays recorded: once the run from the first line comes to line `p` outside a
      block, the next block from there on is in the result. */
  lemma ExtractFindsBlock(lines: seq<string>, kw: string, p: nat, o: nat, c: nat, found: set<Entry>, s: nat)
    requires Substituter.Foreign(kw)
    requires p <= o <= c < |lines|
    requires Resumes(kw, lines, 0, Initial, p, Extraction(false, "", found, s, p))
    requires forall j :: p <= j < o ==> !Opens(lines[j], kw)
    requires Opens(lines[o], kw) && StartsWith(lines[c], kw)
    requires forall j :: o <= j < c ==> !StartsWith(lines[j], kw)
    requires Substitutes(kw, lines, o, c)
    requires Extract(lines, kw).Ok?
    ensures Block(Body(kw, lines, o, c)) in Extract(lines, kw).value
    ensures StartLine(o) in Extract(lines, kw).value
  {
    NextBlock(kw, lines, p, o, c, found, s);
    var closed := Extraction(false, "", found + {Block(Body(kw, lines, o, c)), StartLine(o)}, o, c + 1);
    ExtractFromGrows(kw, lines, c + 1, closed);
  }

  // The blocks of a file, read block by block.

  /** The first line from `o` on that starts with the keyword, or `|lines|` when none
      does. */
  function CloseFrom(kw: string, lines: seq<string>, o: nat): (c: nat)
    requires o <= |lines|
    ensures o <= c <= |lines|
    ensures c < |lines| ==> StartsWith(lines[c], kw)
    ensures forall j :: o <= j < c ==> !StartsWith(lines[j], kw)
    decreases |lines| - o
  {
    if o == |lines| || StartsWith(lines[o], kw) then o else CloseFrom(kw, lines, o + 1)
  }

  /** A block, by the index of the line that opens it and the index of the line that
      closes it. */
  datatype Span = Span(open: nat, close: nat)

  /** The blocks of `lines[p..]` read from outside a block, one after another: a line
      that opens a block and the first line from it on that starts with the keyword
      delimit a block, and the search resumes after the closing line; a block that no
      line closes is no block. */
  function Spans(kw: string, lines: seq<string>, p: nat): set<Span>
    requires p <= |lines|
    decreases |lines| - p
  {
    if p == |lines| then {}
    else if !Opens(lines[p], kw) then Spans(kw, lines, p + 1)
    else
      var c := CloseFrom(kw, lines, p);
      if c == |lines| then {} else {Span(p, c)} + Spans(kw, lines, c + 1)
  }

  /** What a set of blocks records: the text of each and the index of its opening
      line. */
  function Entries(kw: string, lines: seq<string>, spans: set<Span>): set<Entry> {
    (set sp | sp in spans && sp.open <= sp.close < |lines| :: Block(Body(kw, lines, sp.open, sp.close))) +
    (set sp | sp in spans && sp.open <= sp.close < |lines| :: StartLine(sp.open))
  }

  /** The entries of a set of blocks are the text and the opening index of each block,
      and nothing else. */
  lemma EntriesMembers(kw: string, lines: seq<string>, spans: set<Span>)
    ensures forall sp :: sp in spans && sp.open <= sp.close < |lines| ==>
              Block(Body(kw, lines, sp.open, sp.close)) in Entries(kw, lines, spans) &&
              StartLine(sp.open) in Entries(kw, lines, spans)
    ensures forall e :: e in Entries(kw, lines, spans) ==>
              exists sp :: sp in spans && sp.open <= sp.close < |lines| &&
                           (e == Block(Body(kw, lines, sp.open, sp.close)) || e == StartLine(sp.open))
  {
  }

  lemma EntriesAdd(kw: string, lines: seq<string>, spans: set<Span>, spans': set<Span>, o: nat, c: nat)
    requires o <= c < |lines| && spans' == {Span(o, c)} + spans
    ensures Entries(kw, lines, spans')
         == {Block(Body(kw, lines, o, c)), StartLine(o)} + Entries(kw, lines, spans)
  {
  }

  /** Every block read from line `p` on opens at or after `p` on a line the start pattern
      matches, and closes on the first line from there on that starts with the
      keyword. */
  lemma {:induction false} SpansDelimited(kw: string, lines: seq<string>, p: nat)
    requires p <= |lines|
    ensures forall sp :: sp in Spans(kw, lines, p) ==>
              p <= sp.open <= sp.close < |lines| && Opens(lines[sp.open], kw) && sp.close == CloseFrom(kw, lines, sp.open)
    decreases |lines| - p
  {
    if p < |lines| {
      if !Opens(lines[p], kw) {
        SpansDelimited(kw, lines, p + 1);
      } else if CloseFrom(kw, lines, p) < |lines| {
        SpansDelimited(kw, lines, CloseFrom(kw, lines, p) + 1);
      }
    }
  }

  /** Blocks do not overlap: a block that opens before another closes before it opens. */
  lemma {:induction false} SpansApart(kw: string, lines: seq<string>, p: nat)
    requires p <= |lines|
    ensures forall sp, sp' :: sp in Spans(kw, lines, p) && sp' in Spans(kw, lines, p) && sp.open < sp'.open ==>
              sp.close < sp'.open
    decreases |lines| - p
  {
    if p < |lines| {
      if !Opens(lines[p], kw) {
        SpansApart(kw, lines, p + 1);
      } else if CloseFrom(kw, lines, p) < |lines| {
        SpansApart(kw, lines, CloseFrom(kw, lines, p) + 1);
        SpansDelimited(kw, lines, CloseFrom(kw, lines, p) + 1);
      }
    }
  }

  /** The first opening line from `p` on starts a block when some line closes it. */
  lemma {:induction false} ReachedOpenerSpans(kw: string, lines: seq<string>, p: nat, o: nat)
    requires p <= o < |lines| && Opens(lines[o], kw) && CloseFrom(kw, lines, o) < |lines|
    requires forall j :: p <= j < o ==> !Opens(lines[j], kw)
    ensures Span(o, CloseFrom(kw, lines, o)) in Spans(kw, lines, p)
    decreases o - p
  {
    if p < o {
      ReachedOpenerSpans(kw, lines, p + 1, o);
    }
  }

  /** After a block, the first opening line past its closing line starts the next block
      when some line closes it. */
  lemma {:induction false} SpanFollows(kw: string, lines: seq<string>, p: nat, o': nat, o: nat)
    requires p <= |lines| && o' < |lines| && Span(o', CloseFrom(kw, lines, o')) in Spans(kw, lines, p)
    requires CloseFrom(kw, lines, o') < o < |lines| && Opens(lines[o], kw) && CloseFrom(kw, lines, o) < |lines|
    requires forall j :: CloseFrom(kw, lines, o') < j < o ==> !Opens(lines[j], kw)
    ensures Span(o, CloseFrom(kw, lines, o)) in Spans(kw, lines, p)
    decreases |lines| - p, 1
  {
    if !Opens(lines[p], kw) {
      assert Spans(kw, lines, p) == Spans(kw, lines, p + 1);
      SpanFollows(kw, lines, p + 1, o', o);
    } else if o' == p {
      SpanFollowsSame(kw, lines, o', o);
    } else {
      SpanFollowsLater(kw, lines, p, CloseFrom(kw, lines, p), o', o);
    }
  }

  /** `SpanFollows` from the opening line of the block itself. */
  lemma SpanFollowsSame(kw: string, lines: seq<string>, o': nat, o: nat)
    requires o' < |lines| && Opens(lines[o'], kw)
    requires CloseFrom(kw, lines, o') < o < |lines| && Opens(lines[o], kw) && CloseFrom(kw, lines, o) < |lines|
    requires forall j :: CloseFrom(kw, lines, o') < j < o ==> !Opens(lines[j], kw)
    ensures Span(o, CloseFrom(kw, lines, o)) in Spans(kw, lines, o')
  {
    var c := CloseFrom(kw, lines, o');
    SpansOpenedAt(kw, lines, o', c);
    ReachedOpenerSpans(kw, lines, c + 1, o);
  }

  /** `SpanFollows` from the opening line of an earlier block. */
  lemma {:induction false} SpanFollowsLater(kw: string, lines: seq<string>, p: nat, c: nat, o': nat, o: nat)
    requires p < |lines| && Opens(lines[p], kw) && c == CloseFrom(kw, lines, p)
    requires o' != p && o' < |lines| && Span(o', CloseFrom(kw, lines, o')) in Spans(kw, lines, p)
    requires CloseFrom(kw, lines, o') < o < |lines| && Opens(lines[o], kw) && CloseFrom(kw, lines, o) < |lines|
    requires forall j :: CloseFrom(kw, lines, o') < j < o ==> !Opens(lines[j], kw)
    ensures Span(o, CloseFrom(kw, lines, o)) in Spans(kw, lines, p)
    decreases |lines| - p, 0
  {
    SpansOpenedAt(kw, lines, p, c);
    SpanFollows(kw, lines, c + 1, o', o);
  }

  /** The blocks from an opening line `p`: nonempty only when some line closes it. */
  lemma SpansOpenedAt(kw: string, lines: seq<string>, p: nat, c: nat)
    requires p < |lines| && Opens(lines[p], kw) && c == CloseFrom(kw, lines, p)
    ensures c == |lines| ==> Spans(kw, lines, p) == {}
    ensures c < |lines| ==> Spans(kw, lines, p) == {Span(p, c)} + Spans(kw, lines, c + 1)
  {
  }

  /** Every line captured by the blocks read from line `p` on, one after another, that
      gets substituted substitutes without an error: the lines strictly between each
      opening line and its closing line, and every line after an opening line that no
      line closes. Lines outside every block are never substituted and are not looked
      at. */
  predicate CapturesSubstitute(kw: string, lines: seq<string>, p: nat)
    requires p <= |lines|
    decreases |lines| - p
  {
    if p == |lines| then true
    else if !Opens(lines[p], kw) then CapturesSubstitute(kw, lines, p + 1)
    else
      var c := CloseFrom(kw, lines, p);
      Substitutes(kw, lines, p, c) && (c == |lines| || CapturesSubstitute(kw, lines, c + 1))
  }

  /** `CapturesSubstitute` at an opening line: the block's own lines, then the blocks
      after it. */
  lemma CapturesSubstituteAt(kw: string, lines: seq<string>, p: nat, c: nat)
    requires p < |lines| && Opens(lines[p], kw) && c == CloseFrom(kw, lines, p)
    ensures CapturesSubstitute(kw, lines, p)
        <==> Substitutes(kw, lines, p, c) && (c == |lines| || CapturesSubstitute(kw, lines, c + 1))
  {
  }

  /** From outside a block, whatever was recorded before, the state machine raises
      exactly when a line it captures raises, and otherwise adds exactly the entries of
      the blocks that `Spans` reads. */
  lemma {:induction false} ExtractFromIdle(kw: string, lines: seq<string>, p: nat, found: set<Entry>, s: nat)
    requires Substituter.Foreign(kw) && p <= |lines|
    ensures ExtractFrom(kw, lines, p, Extraction(false, "", found, s, p)).Ok? <==> CapturesSubstitute(kw, lines, p)
    ensures CapturesSubstitute(kw, lines, p) ==>
              ExtractFrom(kw, lines, p, Extraction(false, "", found, s, p)).value.found
                == found + Entries(kw, lines, Spans(kw, lines, p))
    decreases |lines| - p, 1
  {
    if p == |lines| {
      IdleEnd(kw, lines, found, s);
    } else if !Opens(lines[p], kw) {
      IdleSkipFrom(kw, lines, p, found, s);
    } else {
      var c := CloseFrom(kw, lines, p);
      if !Substitutes(kw, lines, p, c) {
        IdleRaises(kw, lines, p, c, found, s);
      } else if c < |lines| {
        IdleBlockFrom(kw, lines, p, c, found, s, {Block(Body(kw, lines, p, c)), StartLine(p)});
      } else {
        IdleUnclosed(kw, lines, p, found, s);
      }
    }
  }

  /** `ExtractFromIdle` at a line that opens no block. */
  lemma {:induction false} IdleSkipFrom(kw: string, lines: seq<string>, p: nat, found: set<Entry>, s: nat)
    requires Substituter.Foreign(kw) && p < |lines| && !Opens(lines[p], kw)
    ensures ExtractFrom(kw, lines, p, Extraction(false, "", found, s, p)).Ok? <==> CapturesSubstitute(kw, lines, p)
    ensures CapturesSubstitute(kw, lines, p) ==>
              ExtractFrom(kw, lines, p, Extraction(false, "", found, s, p)).value.found
                == found + Entries(kw, lines, Spans(kw, lines, p))
    decreases |lines| - p, 0
  {
    ExtractFromIdle(kw, lines, p + 1, found, s);
    IdleSkip(kw, lines, p, found, s);
  }

  /** `ExtractFromIdle` at a line that opens a block some later line closes, when the
      block's own lines substitute. */
  lemma {:induction false} IdleBlockFrom(kw: string, lines: seq<string>, p: nat, c: nat, found: set<Entry>, s: nat, added: set<Entry>)
    requires Substituter.Foreign(kw) && p < |lines|
    requires Opens(lines[p], kw) && c == CloseFrom(kw, lines, p) < |lines| && Substitutes(kw, lines, p, c)
    requires added == {Block(Body(kw, lines, p, c)), StartLine(p)}
    ensures ExtractFrom(kw, lines, p, Extraction(false, "", found, s, p)).Ok? <==> CapturesSubstitute(kw, lines, p)
    ensures CapturesSubstitute(kw, lines, p) ==>
              ExtractFrom(kw, lines, p, Extraction(false, "", found, s, p)).value.found
                == found + Entries(kw, lines, Spans(kw, lines, p))
    decreases |lines| - p, 0
  {
    ExtractFromIdle(kw, lines, c + 1, found + added, p);
    IdleBlockJoin(kw, lines, p, c, found, s, added);
  }

  /** The block from `p` to `c` followed by the run after `c`. */
  lemma IdleBlockJoin(kw: string, lines: seq<string>, p: nat, c: nat, found: set<Entry>, s: nat, added: set<Entry>)
    requires Substituter.Foreign(kw) && p < |lines|
    requires Opens(lines[p], kw) && c == CloseFrom(kw, lines, p) < |lines| && Substitutes(kw, lines, p, c)
    requires added == {Block(Body(kw, lines, p, c)), StartLine(p)}
    requires ExtractFrom(kw, lines, c + 1, Extraction(false, "", found + added, p, c + 1)).Ok?
         <==> CapturesSubstitute(kw, lines, c + 1)
    requires CapturesSubstitute(kw, lines, c + 1) ==>
               ExtractFrom(kw, lines, c + 1, Extraction(false, "", found + added, p, c + 1)).value.found
                 == found + added + Entries(kw, lines, Spans(kw, lines, c + 1))
    ensures ExtractFrom(kw, lines, p, Extraction(false, "", found, s, p)).Ok? <==> CapturesSubstitute(kw, lines, p)
    ensures CapturesSubstitute(kw, lines, p) ==>
              ExtractFrom(kw, lines, p, Extraction(false, "", found, s, p)).value.found
                == found + Entries(kw, lines, Spans(kw, lines, p))
  {
    CapturesSubstituteAt(kw, lines, p, c);
    IdleBlock(kw, lines, p, c, found, s);
    if CapturesSubstitute(kw, lines, c + 1) {
      IdleBlockStep(kw, lines, p, c, found, s, added, Entries(kw, lines, Spans(kw, lines, c + 1)));
    }
  }

  /** At the end of the file nothing is added. */
  lemma IdleEnd(kw: string, lines: seq<string>, found: set<Entry>, s: nat)
    ensures ExtractFrom(kw, lines, |lines|, Extraction(false, "", found, s, |lines|)) == Ok(Extraction(false, "", found, s, |lines|))
    ensures found + Entries(kw, lines, Spans(kw, lines, |lines|)) == found
  {
    assert Entries(kw, lines, {}) == {};
  }

  /** From an opening line `p` that line `c` closes, the run adds the block's entries
      and then those of the blocks after `c`. */
  lemma IdleBlockStep(kw: string, lines: seq<string>, p: nat, c: nat, found: set<Entry>, s: nat, added: set<Entry>, later: set<Entry>)
    requires Substituter.Foreign(kw)
    requires p < |lines| && Opens(lines[p], kw) && c == CloseFrom(kw, lines, p) < |lines| && Substitutes(kw, lines, p, c)
    requires added == {Block(Body(kw, lines, p, c)), StartLine(p)}
    requires later == Entries(kw, lines, Spans(kw, lines, c + 1))
    requires ExtractFrom(kw, lines, c + 1, Extraction(false, "", found + added, p, c + 1)).Ok?
    requires ExtractFrom(kw, lines, c + 1, Extraction(false, "", found + added, p, c + 1)).value.found
          == found + added + later
    ensures ExtractFrom(kw, lines, p, Extraction(false, "", found, s, p)).Ok?
    ensures ExtractFrom(kw, lines, p, Extraction(false, "", found, s, p)).value.found
         == found + Entries(kw, lines, Spans(kw, lines, p))
  {
    IdleBlock(kw, lines, p, c, found, s);
    IdleBlockEntries(kw, lines, p, c);
    AddedAssoc(found, added, later, Entries(kw, lines, Spans(kw, lines, p)));
  }

  /** The block opening at `p` and closing at `c` is read in one go. */
  lemma IdleBlock(kw: string, lines: seq<string>, p: nat, c: nat, found: set<Entry>, s: nat)
    requires Substituter.Foreign(kw)
    requires p < |lines| && Opens(lines[p], kw) && c == CloseFrom(kw, lines, p) < |lines| && Substitutes(kw, lines, p, c)
    ensures ExtractFrom(kw, lines, p, Extraction(false, "", found, s, p))
         == ExtractFrom(kw, lines, c + 1, Extraction(false, "", found + {Block(Body(kw, lines, p, c)), StartLine(p)}, p, c + 1))
  {
    NextBlock(kw, lines, p, p, c, found, s);
  }

  /** The entries of the blocks from an opening line `p` that line `c` closes: its own
      and those of the blocks after `c`. */
  lemma IdleBlockEntries(kw: string, lines: seq<string>, p: nat, c: nat)
    requires p < |lines| && Opens(lines[p], kw) && c == CloseFrom(kw, lines, p) < |lines|
    ensures Entries(kw, lines, Spans(kw, lines, p))
         == {Block(Body(kw, lines, p, c)), StartLine(p)} + Entries(kw, lines, Spans(kw, lines, c + 1))
  {
    SpansOpenedAt(kw, lines, p, c);
    EntriesAdd(kw, lines, Spans(kw, lines, c + 1), Spans(kw, lines, p), p, c);
  }

  lemma AddedAssoc(found: set<Entry>, added: set<Entry>, later: set<Entry>, all: set<Entry>)
    requires all == added + later
    ensures found + added + later == found + all
  {
  }

  /** A line that opens no block is passed over. */
  lemma IdleSkip(kw: string, lines: seq<string>, p: nat, found: set<Entry>, s: nat)
    requires p < |lines| && !Opens(lines[p], kw)
    ensures ExtractFrom(kw, lines, p, Extraction(false, "", found, s, p))
         == ExtractFrom(kw, lines, p + 1, Extraction(false, "", found, s, p + 1))
    ensures Spans(kw, lines, p) == Spans(kw, lines, p + 1)
    ensures CapturesSubstitute(kw, lines, p) == CapturesSubstitute(kw, lines, p + 1)
  {
    IdleUntil(kw, lines, p, p + 1, found, s);
  }

  /** A block that no line closes adds nothing, and nothing after it is read. */
  lemma IdleUnclosed(kw: string, lines: seq<string>, p: nat, found: set<Entry>, s: nat)
    requires Substituter.Foreign(kw)
    requires p < |lines| && Opens(lines[p], kw) && CloseFrom(kw, lines, p) == |lines|
    requires Substitutes(kw, lines, p, |lines|)
    ensures ExtractFrom(kw, lines, p, Extraction(false, "", found, s, p)).Ok?
    ensures CapturesSubstitute(kw, lines, p)
    ensures ExtractFrom(kw, lines, p, Extraction(false, "", found, s, p)).value.found
         == found + Entries(kw, lines, Spans(kw, lines, p))
  {
    OpenAt(kw, lines, p, found, s);
    Unterminated(kw, lines, p + 1, Extraction(true, "", found, p, p + 1));
    CapturesSubstituteAt(kw, lines, p, |lines|);
    assert Spans(kw, lines, p) == {};
  }

  /** A block in which a captured line raises: the run raises. */
  lemma IdleRaises(kw: string, lines: seq<string>, p: nat, c: nat, found: set<Entry>, s: nat)
    requires Substituter.Foreign(kw)
    requires p < |lines| && Opens(lines[p], kw) && c == CloseFrom(kw, lines, p) && !Substitutes(kw, lines, p, c)
    ensures ExtractFrom(kw, lines, p, Extraction(false, "", found, s, p)) == IndexError
    ensures !CapturesSubstitute(kw, lines, p)
  {
    var j :| p < j < c && !Contains(lines[j], kw) && !Substituter.Substitute(lines[j]).Ok?;
    assert !StartsWith(lines[p], kw);
    OpenAt(kw, lines, p, found, s);
    CaptureRaises(kw, lines, p, p + 1, c, found, "", j);
    CapturesSubstituteAt(kw, lines, p, c);
  }

  /** Inside a block, a line before the closing one that gets substituted and raises
      makes the run raise, whatever the lines before it are. */
  lemma {:induction false} CaptureRaises(kw: string, lines: seq<string>, o: nat, p: nat, c: nat, found: set<Entry>, acc: string, j: nat)
    requires Substituter.Foreign(kw) && p <= j < c <= |lines|
    requires forall i :: p <= i < c ==> !StartsWith(lines[i], kw)
    requires !Contains(lines[j], kw) && !Substituter.Substitute(lines[j]).Ok?
    ensures ExtractFrom(kw, lines, p, Extraction(true, acc, found, o, p)) == IndexError
    decreases j - p
  {
    if !Contains(lines[p], kw) && !Substituter.Substitute(lines[p]).Ok? {
      assert ExtractStep(kw, Extraction(true, acc, found, o, p), lines[p]) == IndexError;
    } else {
      CapturedLine(kw, lines[p]);
      CaptureNext(kw, lines, o, p, found, acc);
      CaptureRaises(kw, lines, o, p + 1, c, found, acc + Piece(kw, lines[p]), j);
    }
  }

  /** For a keyword foreign to the substitution, a file raises exactly when a line
      captured in one of its blocks raises, and otherwise yields exactly the entries of
      the blocks read one after another. */
  lemma ExtractIsSpans(lines: seq<string>, kw: string)
    requires Substituter.Foreign(kw)
    ensures Extract(lines, kw).Ok? <==> CapturesSubstitute(kw, lines, 0)
    ensures CapturesSubstitute(kw, lines, 0) ==> Extract(lines, kw) == Ok(Entries(kw, lines, Spans(kw, lines, 0)))
  {
    ExtractFromIdle(kw, lines, 0, {}, 0);
    assert {} + Entries(kw, lines, Spans(kw, lines, 0)) == Entries(kw, lines, Spans(kw, lines, 0));
  }

  /** For a whole file: every recorded text is the text of a block whose opening line is
      recorded, between that line and the first line from it on that starts with the
      keyword. */
  lemma ExtractBlockOpened(lines: seq<string>, kw: string, t: string) returns (o: nat)
    requires Substituter.Foreign(kw)
    requires Extract(lines, kw).Ok? && Block(t) in Extract(lines, kw).value
    ensures o < |lines| && Opens(lines[o], kw) && StartLine(o) in Extract(lines, kw).value
    ensures CloseFrom(kw, lines, o) < |lines| && t == Body(kw, lines, o, CloseFrom(kw, lines, o))
  {
    ExtractIsSpans(lines, kw);
    EntriesMembers(kw, lines, Spans(kw, lines, 0));
    SpansDelimited(kw, lines, 0);
    var sp :| sp in Spans(kw, lines, 0) && sp.open <= sp.close < |lines| && Block(t) == Block(Body(kw, lines, sp.open, sp.close));
    o := sp.open;
  }

  /** For a whole file: every recorded opening line has a closing line, and the text of
      its block is recorded. */
  lemma ExtractOpenerClosed(lines: seq<string>, kw: string, o: nat)
    requires Substituter.Foreign(kw)
    requires Extract(lines, kw).Ok? && StartLine(o) in Extract(lines, kw).value
    ensures o < |lines| && Opens(lines[o], kw) && CloseFrom(kw, lines, o) < |lines|
    ensures Block(Body(kw, lines, o, CloseFrom(kw, lines, o))) in Extract(lines, kw).value
  {
    ExtractIsSpans(lines, kw);
    EntriesMembers(kw, lines, Spans(kw, lines, 0));
    SpansDelimited(kw, lines, 0);
    var sp :| sp in Spans(kw, lines, 0) && sp.open <= sp.close < |lines| && StartLine(o) == StartLine(sp.open);
  }

  /** For a whole file: every block read one after another is recorded, its text and
      its opening line. */
  lemma ExtractRecordsSpans(lines: seq<string>, kw: string)
    requires Substituter.Foreign(kw) && CapturesSubstitute(kw, lines, 0)
    ensures Extract(lines, kw).Ok?
    ensures forall sp :: sp in Spans(kw, lines, 0) ==>
              sp.open <= sp.close < |lines| &&
              Block(Body(kw, lines, sp.open, sp.close)) in Extract(lines, kw).value &&
              StartLine(sp.open) in Extract(lines, kw).value
  {
    ExtractIsSpans(lines, kw);
    EntriesMembers(kw, lines, Spans(kw, lines, 0));
    SpansDelimited(kw, lines, 0);
  }

  /** A word of capital letters. */
  predicate Capitals(kw: string) {
    forall k :: 0 <= k < |kw| ==> 'A' <= kw[k] <= 'Z'
  }

  /** A word of capital letters shares no character with the placeholder or a quote. */
  lemma CapitalsAreForeign(kw: string)
    requires kw != "" && Capitals(kw)
    ensures Substituter.Foreign(kw)
  {
    var p := Substituter.Placeholder;
    forall c | c in kw
      ensures c !in p && c != '"'
    {
      var k :| 0 <= k < |kw| && kw[k] == c;
      assert forall m :: 0 <= m < |p| ==> p[m] == '-' || 'a' <= p[m] <= 'z';
    }
  }

  /** None of the enclosure keywords shares a character with the placeholder or with a
      double quote. */
  lemma EnclosuresAreForeign()
    ensures forall kw :: kw in Enclosures ==> Substituter.Foreign(kw)
  {
    forall k | 0 <= k < |Enclosures|
      ensures Substituter.Foreign(Enclosures[k])
    {
      CapitalsAreForeign(Enclosures[k]);
    }
  }

  // Examples.

  /** Any indented `name = <<KEYWORD` line opens a block, whatever follows the keyword. */
  lemma OpensHeredoc(ind: string, name: string, kw: string, rest: string)
    requires AllSpace(ind) && name != "" && NoSpace(name)
    ensures Opens(ind + name + " = <<" + kw + rest, kw)
  {
    var line := ind + name + " = <<" + kw + rest;
    var a, b := |ind|, |ind| + |name|;
    assert line[..a] == ind;
    assert line[a..b] == name;
    assert line[b..b + 1] == " " && line[b + 1] == '=' && line[b + 2..b + 3] == " ";
    assert line[b + 3..][..2 + |kw|] == "<<" + kw;
    assert OpensAt(line, kw, a, b, b + 1, b + 3);
    OpensMatchesPattern(line, kw);
  }

  lemma OpensDefinitionExample(line: string)
    requires line == "  x = <<DEFINITION\n"
    ensures Opens(line, "DEFINITION")
  {
    assert line == "  " + "x" + " = <<" + "DEFINITION" + "\n";
    OpensHeredoc("  ", "x", "DEFINITION", "\n");
  }

  /** A block between an indented assignment and its unindented terminator, around any
      line without an expression or the keyword. */
  lemma ExampleBlock(lines: seq<string>, body: string)
    requires lines == ["  x = <<DEFINITION\n", body, "DEFINITION\n"]
    requires '$' !in body && !Contains(body, "DEFINITION")
    ensures Extract(lines, "DEFINITION") == Ok({Block(body), StartLine(0)})
  {
    var kw := "DEFINITION";
    ExampleBlockLines(lines, kw, body);
    EnclosuresAreForeign();
    assert Enclosures[0] == kw;
    LastLineCloses(kw, lines, 0, 2);
    ExampleBlockText(lines, kw, body);
  }

  /** A file whose first block closes on its last line yields that block alone. */
  lemma LastLineCloses(kw: string, lines: seq<string>, o: nat, c: nat)
    requires Substituter.Foreign(kw)
    requires o <= c && c + 1 == |lines|
    requires forall j :: 0 <= j < o ==> !Opens(lines[j], kw)
    requires Opens(lines[o], kw) && StartsWith(lines[c], kw)
    requires forall j :: o <= j < c ==> !StartsWith(lines[j], kw)
    requires Substitutes(kw, lines, o, c)
    ensures Extract(lines, kw) == Ok({Block(Body(kw, lines, o, c)), StartLine(o)})
  {
    FirstBlock(kw, lines, o, c);
  }

  /** The three lines of the example: an opener that is no terminator, a middle line
      that substitutes to itself, and the terminator. */
  lemma ExampleBlockLines(lines: seq<string>, kw: string, body: string)
    requires kw == "DEFINITION" && lines == ["  x = <<DEFINITION\n", body, "DEFINITION\n"]
    requires '$' !in body && !Contains(body, kw)
    ensures Opens(lines[0], kw) && StartsWith(lines[2], kw)
    ensures forall j :: 0 <= j < 2 ==> !StartsWith(lines[j], kw)
    ensures Substitutes(kw, lines, 0, 2)
  {
    ExampleOpener(lines[0], kw);
    ExampleTerminator(lines[2], kw);
    assert lines[1] == body;
    Substituter.SubstituteNoExpression(body);
  }

  lemma ExampleOpener(line: string, kw: string)
    requires kw == "DEFINITION" && line == "  x = <<DEFINITION\n"
    ensures Opens(line, kw) && !StartsWith(line, kw)
  {
    OpensDefinitionExample(line);
    assert line[0] != kw[0];
  }

  lemma ExampleTerminator(line: string, kw: string)
    requires kw == "DEFINITION" && line == "DEFINITION\n"
    ensures StartsWith(line, kw)
  {
    assert line == kw + "\n";
    assert line[..|kw|] == kw;
  }

  /** The example's block text is its middle line. */
  lemma ExampleBlockText(lines: seq<string>, kw: string, body: string)
    requires kw == "DEFINITION" && lines == ["  x = <<DEFINITION\n", body, "DEFINITION\n"]
    requires '$' !in body && !Contains(body, kw)
    ensures Body(kw, lines, 0, 2) == body
  {
    Substituter.SubstituteNoExpression(lines[1]);
    assert Piece(kw, lines[1]) == body;
    assert Gather(kw, lines, 2, 2, "" + body) == body;
  }

  lemma OpensEofExample(line: string)
    requires line == "x = <<EOF\n"
    ensures Opens(line, "EOF")
  {
    assert line == "" + "x" + " = <<" + "EOF" + "\n";
    OpensHeredoc("", "x", "EOF", "\n");
  }

  /** A block that no later line closes records nothing: the lines after it are only
      captured. */
  lemma {:induction false} Unterminated(kw: string, lines: seq<string>, p: nat, st: Extraction)
    requires Substituter.Foreign(kw) && st.capturing && p <= |lines|
    requires forall j :: p <= j < |lines| ==> !StartsWith(lines[j], kw)
    requires forall j :: p <= j < |lines| ==> Contains(lines[j], kw) || Substituter.Substitute(lines[j]).Ok?
    ensures ExtractFrom(kw, lines, p, st).Ok?
    ensures ExtractFrom(kw, lines, p, st).value.found == st.found
    decreases |lines| - p
  {
    if p < |lines| {
      CapturedLine(kw, lines[p]);
      CaptureStep(kw, lines[p], st);
      Unterminated(kw, lines, p + 1, ExtractStep(kw, st, lines[p]).value);
    }
  }

  /** A first line that opens a block without closing it starts the capture. */
  lemma OpenFirst(kw: string, lines: seq<string>)
    requires |lines| > 0 && Opens(lines[0], kw) && !StartsWith(lines[0], kw)
    ensures ExtractFrom(kw, lines, 0, Initial) == ExtractFrom(kw, lines, 1, Extraction(true, "", {}, 0, 1))
  {
    OpenStep(kw, lines[0], {}, 0, 0);
    ExtractFromStep(kw, lines, 0, Initial, Extraction(true, "", {}, 0, 1));
  }

  /** The terminator must start the line: an indented one is neither a terminator nor
      captured, and a block that never closes is dropped, whatever line it holds. */
  lemma ExampleIndentedTerminator(lines: seq<string>)
    requires |lines| == 3 && lines[0] == "x = <<EOF\n" && lines[2] == "  EOF\n"
    requires '$' !in lines[1] && !Contains(lines[1], "EOF")
    ensures Extract(lines, "EOF") == Ok({})
  {
    var kw := "EOF";
    IndentedTerminatorLines(lines, kw);
    EnclosuresAreForeign();
    assert Enclosures[1] == kw;
    NeverClosed(kw, lines);
  }

  /** A file whose first line opens a block that no later line closes records nothing. */
  lemma NeverClosed(kw: string, lines: seq<string>)
    requires Substituter.Foreign(kw) && |lines| > 0 && Opens(lines[0], kw) && !StartsWith(lines[0], kw)
    requires forall j :: 1 <= j < |lines| ==> !StartsWith(lines[j], kw)
    requires forall j :: 1 <= j < |lines| ==> Contains(lines[j], kw) || Substituter.Substitute(lines[j]).Ok?
    ensures Extract(lines, kw) == Ok({})
  {
    OpenFirst(kw, lines);
    Unterminated(kw, lines, 1, Extraction(true, "", {}, 0, 1));
  }

  /** The lines of that example: an opener, a captured line, and a line holding the
      keyword without starting with it. */
  lemma IndentedTerminatorLines(lines: seq<string>, kw: string)
    requires |lines| == 3 && lines[0] == "x = <<EOF\n" && lines[2] == "  EOF\n" && kw == "EOF"
    requires '$' !in lines[1] && !Contains(lines[1], "EOF")
    ensures Opens(lines[0], kw) && !StartsWith(lines[0], kw)
    ensures !StartsWith(lines[1], kw) && Substituter.Substitute(lines[1]).Ok?
    ensures Contains(lines[2], kw) && !StartsWith(lines[2], kw)
  {
    OpensEofExample(lines[0]);
    assert lines[0][0] != kw[0];
    Substituter.SubstituteNoExpression(lines[1]);
    assert StartsWith(lines[2][2..], kw);
    ContainsSuffix(lines[2], 2, kw);
    assert lines[2][0] != kw[0];
  }

  /** The start pattern needs whitespace on both sides of the `=`. */
  lemma ExampleNoSpaceBeforeEquals(line: string)
    requires line == "x=<<DEFINITION\n"
    ensures !Opens(line, "DEFINITION")
  {
    SkipSpacesExact(line, 0, 0);
    SkipNonSpacesExact(line, 0, 14);
    SkipSpacesExact(line, 14, 15);
  }

  // All keywords of a file, and all files.

  /** The first `n` keywords' entries for one file: a keyword is a key exactly when it
      yields some entry, with the entries it yields; an IndexError for any keyword
      aborts. */
  function FileBlocksUpTo(lines: seq<string>, n: nat): (r: PyResult<map<string, set<Entry>>>)
    requires n <= |Enclosures|
    ensures r.Ok? <==> forall k :: 0 <= k < n ==> Extract(lines, Enclosures[k]).Ok?
    ensures r.Ok? ==> forall kw :: kw in r.value <==>
              kw in Enclosures[..n] && Extract(lines, kw).Ok? && Extract(lines, kw).value != {}
    ensures r.Ok? ==> forall kw :: kw in r.value ==> Extract(lines, kw) == Ok(r.value[kw])
  {
    if n == 0 then Ok(map[])
    else match FileBlocksUpTo(lines, n - 1)
      case IndexError => IndexError
      case Ok(m) =>
        assert Enclosures[..n] == Enclosures[..n - 1] + [Enclosures[n - 1]];
        match Extract(lines, Enclosures[n - 1])
        case IndexError => IndexError
        case Ok(found) => Ok(if found != {} then m[Enclosures[n - 1] := found] else m)
  }

  /** The entries of one file, per enclosure keyword. */
  function FileBlocks(lines: seq<string>): PyResult<map<string, set<Entry>>> {
    FileBlocksUpTo(lines, |Enclosures|)
  }

  /** The keywords of one file, processed in order. */
  method ExtractFile(lines: seq<string>) returns (r: PyResult<map<string, set<Entry>>>)
    ensures r == FileBlocks(lines)
  {
    var blocks: map<string, set<Entry>> := map[];
    for n := 0 to |Enclosures|
      invariant FileBlocksUpTo(lines, n) == Ok(blocks)
    {
      var found := ExtractBlocks(lines, Enclosures[n]);
      if found.IndexError? {
        return IndexError;
      }
      if |found.value| > 0 {
        blocks := blocks[Enclosures[n] := found.value];
      }
    }
    r := Ok(blocks);
  }

  /** The entries of the files in `done` that yield some: what the walk over the
      files has collected once it has seen `done`. */
  function Collected(files: map<string, seq<string>>, done: set<string>): map<string, map<string, set<Entry>>>
    requires forall f :: f in done ==> f in files && FileBlocks(files[f]).Ok?
  {
    map f | f in done && FileBlocks(files[f]).value != map[] :: FileBlocks(files[f]).value
  }

  lemma CollectedAdd(files: map<string, seq<string>>, done: set<string>, key: string)
    requires forall f :: f in done ==> f in files && FileBlocks(files[f]).Ok?
    requires key in files && FileBlocks(files[key]).Ok?
    ensures Collected(files, done + {key})
         == if FileBlocks(files[key]).value != map[] then Collected(files, done)[key := FileBlocks(files[key]).value]
            else Collected(files, done)
  {
  }

  /** The entries of every file, keyed by path: a file is present exactly when some
      keyword yields an entry in it. */
  function JsonBlocks(files: map<string, seq<string>>): PyResult<map<string, map<string, set<Entry>>>> {
    if forall f :: f in files ==> FileBlocks(files[f]).Ok? then Ok(Collected(files, files.Keys))
    else IndexError
  }

  /** Every file, each given by its path and its lines, in whatever order the dictionary
      of files yields them. */
  method GetJsonsFromTfFiles(files: map<string, seq<string>>) returns (r: PyResult<map<string, map<string, set<Entry>>>>)
    ensures r == JsonBlocks(files)
  {
    var output: map<string, map<string, set<Entry>>> := map[];
    var done: set<string> := {};
    while done != files.Keys
      invariant done <= files.Keys
      invariant forall f :: f in done ==> FileBlocks(files[f]).Ok?
      invariant output == Collected(files, done)
      decreases |files.Keys - done|
    {
      var key :| key in files.Keys - done;
      var blocks := ExtractFile(files[key]);
      if blocks.IndexError? {
        return IndexError;
      }
      CollectedAdd(files, done, key);
      if |blocks.value| > 0 {
        output := output[key := blocks.value];
      }
      done := done + {key};
    }
    r := Ok(output);
  }
}
