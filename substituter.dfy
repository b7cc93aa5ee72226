/** The interpolation substituter: `${...}` expressions in one line are replaced by a
    placeholder, tracking brace depth, and doubled quotes are then collapsed.

    The scan walks the characters of the ORIGINAL line while the line itself may be
    rewritten under it; an index `i` into the current line is kept aligned with the
    end of the line (`len(line) - i` only moves by one per character), and Python's
    negative indexing means `line[i - 1]` at `i == 0` reads the last character. */
module Substituter {
  import opened Text

  const Placeholder: string := "some-var-here"

  /** Collapses every `""` to `"`. */
  function Collapse(s: string): string {
    ReplaceAll(s, "\"\"", "\"")
  }

  /** The scan's state between two characters: the current line, the index `i` of the
      last character looked at, the brace depth, and the index of the `{` that opened
      the current expression. */
  datatype Scan = Scan(line: string, i: int, depth: int, dollar: int)

  function Init(line: string): Scan {
    Scan(line, -1, 0, 0)
  }

  /** Whether the next iteration, on original character `c`, brings an open expression
      back to depth 0: an unescaped `}` at depth 1. */
  predicate Closes(st: Scan, c: char)
    requires IndexOk(st.line, st.i)
  {
    At(st.line, st.i) != '\\' && st.depth == 1 && c == '}'
  }

  /** The text captured when an expression closes at the next index `st.i + 1`:
      Python's `line[initial_dollar - 1:i + 1]`. */
  function Captured(st: Scan): string {
    Slice(st.line, st.dollar - 1, st.i + 2)
  }

  /** Depth after the brace test of one iteration: only a brace whose preceding
      character (in the current line) is not a backslash counts, and only inside an
      expression. The `{` right after the opening one is not counted. */
  function BraceDepth(st: Scan, i: int, prev: char, c: char): int {
    if prev != '\\' && st.depth > 0 then
      if c == '{' && st.dollar != i - 1 then st.depth + 1
      else if c == '}' then st.depth - 1
      else st.depth
    else st.depth
  }

  /** The expression text captured when depth returns to 0 at index `i`, or "". */
  function CaptureAt(st: Scan, i: int, prev: char, c: char): string {
    if prev != '\\' && st.depth > 0 && c == '}' && st.depth - 1 == 0
    then Slice(st.line, st.dollar - 1, i + 1)
    else ""
  }

  /** Replaces every occurrence of the captured text and collapses doubled quotes. */
  function Rewrite(line: string, tfVar: string): string
    requires tfVar != ""
  {
    Collapse(ReplaceAll(line, tfVar, Placeholder))
  }

  /** One iteration of the scan on the original character `c`. */
  function Step(st: Scan, c: char): PyResult<Scan> {
    var i := st.i + 1;
    if !IndexOk(st.line, i - 1) then IndexError
    else
      var prev := At(st.line, i - 1);
      var depth1 := BraceDepth(st, i, prev, c);
      var tfVar := CaptureAt(st, i, prev, c);
      if c == '{' && prev == '$' && !IndexOk(st.line, i - 2) then IndexError
      else
        var opens := c == '{' && prev == '$' && At(st.line, i - 2) != '\\' && depth1 == 0;
        var depth2 := if opens then 1 else depth1;
        var dollar2 := if opens then i else st.dollar;
        if tfVar == "" then Ok(Scan(st.line, i, depth2, dollar2))
        else
          var line2 := Rewrite(st.line, tfVar);
          Ok(Scan(line2, i - (|st.line| - |line2|), depth2, dollar2))
  }

  /** Whatever the line is rewritten to, one iteration brings the index exactly one
      character closer to the end of the line; and the only errors are the two
      look-backs reading outside the line. */
  lemma StepAligned(st: Scan, c: char)
    ensures Step(st, c).Ok? ==>
              |Step(st, c).value.line| - Step(st, c).value.i == |st.line| - st.i - 1
    ensures Step(st, c).IndexError? ==> !IndexOk(st.line, st.i) || !IndexOk(st.line, st.i - 1)
  {
  }

  /** The state after the first `k` characters of the original line. */
  function ScanPrefix(orig: string, k: nat): PyResult<Scan>
    requires k <= |orig|
  {
    if k == 0 then Ok(Init(orig))
    else match ScanPrefix(orig, k - 1)
      case IndexError => IndexError
      case Ok(st) => Step(st, orig[k - 1])
  }

  /** The substituted line, or the IndexError the scan raises. */
  function Substitute(line: string): PyResult<string> {
    match ScanPrefix(line, |line|)
    case IndexError => IndexError
    case Ok(st) => Ok(st.line)
  }

  /** The substituter as the source runs it: one pass over the original characters. */
  method SubstituteTfVars(line: string) returns (r: PyResult<string>)
    ensures r == Substitute(line)
  {
    var cur := line;
    var i := -1;
    var stack := 0;
    var initialDollar := 0;
    for k := 0 to |line|
      invariant ScanPrefix(line, k) == Ok(Scan(cur, i, stack, initialDollar))
    {
      var next := Iteration(Scan(cur, i, stack, initialDollar), line[k]);
      assert ScanPrefix(line, k + 1) == next;
      if next.IndexError? {
        ScanErrorPersists(line, k + 1, |line|);
        return IndexError;
      }
      cur, i, stack, initialDollar := next.value.line, next.value.i, next.value.depth, next.value.dollar;
    }
    r := Ok(cur);
  }

  /** The body of the scan's loop, on the character `ch` of the original line. */
  method Iteration(before: Scan, ch: char) returns (r: PyResult<Scan>)
    ensures r == Step(before, ch)
  {
    var cur, i, stack, initialDollar := before.line, before.i + 1, before.depth, before.dollar;
    if !IndexOk(cur, i - 1) {
      return IndexError;
    }
    var prev := At(cur, i - 1);
    var tfVar := "";
    if prev != '\\' && stack > 0 {
      if ch == '{' && initialDollar != i - 1 {
        stack := stack + 1;
      }
      if ch == '}' {
        stack := stack - 1;
        if stack == 0 {
          tfVar := Slice(cur, initialDollar - 1, i + 1);
        }
      }
    }
    assert stack == BraceDepth(before, i, prev, ch);
    assert tfVar == CaptureAt(before, i, prev, ch);
    if ch == '{' && prev == '$' {
      if !IndexOk(cur, i - 2) {
        return IndexError;
      }
      if At(cur, i - 2) != '\\' && stack == 0 {
        initialDollar := i;
        stack := 1;
      }
    }
    if tfVar != "" {
      var linLen := |cur|;
      cur := ReplaceAll(cur, tfVar, Placeholder);
      cur := ReplaceAll(cur, "\"\"", "\"");
      i := i - (linLen - |cur|);
    }
    r := Ok(Scan(cur, i, stack, initialDollar));
  }

  /** Once the scan has raised, it stays raised. */
  lemma {:induction false} ScanErrorPersists(orig: string, k: nat, m: nat)
    requires k <= m <= |orig|
    requires ScanPrefix(orig, k) == IndexError
    ensures ScanPrefix(orig, m) == IndexError
    decreases m - k
  {
    if k < m {
      ScanErrorPersists(orig, k + 1, m);
    }
  }

  /** What every state reached by the scan satisfies: the depth is never negative,
      `len(line) - i` drops by exactly one per original character, and while an
      expression is open, the character before its `{` is a `$` and lies at or
      before the current index. */
  predicate Reachable(orig: string, k: nat, st: Scan) {
    st.depth >= 0 &&
    |st.line| - st.i == |orig| - k + 1 &&
    (st.depth > 0 ==>
      IndexOk(st.line, st.dollar - 1) && At(st.line, st.dollar - 1) == '$' && st.dollar <= st.i)
  }

  lemma StepKeepsReachable(orig: string, k: nat, st: Scan, c: char)
    requires Reachable(orig, k, st)
    requires Step(st, c).Ok?
    ensures Reachable(orig, k + 1, Step(st, c).value)
  {
    var i := st.i + 1;
    var prev := At(st.line, i - 1);
    var tfVar := CaptureAt(st, i, prev, c);
    if tfVar != "" {
      var line2 := Rewrite(st.line, tfVar);
      assert Step(st, c).value.i == i - (|st.line| - |line2|);
    }
  }

  /** Depth starts at 0 and never goes negative; the distance from the current index
      to the end of the line is kept across every replacement. */
  lemma {:induction false} ScanReachable(orig: string, k: nat)
    requires k <= |orig|
    requires ScanPrefix(orig, k).Ok?
    ensures Reachable(orig, k, ScanPrefix(orig, k).value)
  {
    if k > 0 {
      ScanReachable(orig, k - 1);
      StepKeepsReachable(orig, k - 1, ScanPrefix(orig, k - 1).value, orig[k - 1]);
    }
  }

  /** A brace preceded (in the current line) by a backslash changes nothing. */
  lemma StepEscaped(st: Scan, c: char)
    requires IndexOk(st.line, st.i) && At(st.line, st.i) == '\\'
    requires Step(st, c).Ok?
    ensures Step(st, c).value == Scan(st.line, st.i + 1, st.depth, st.dollar)
  {
  }

  /** A character other than a brace changes neither the line, the depth nor the
      position of the open expression. */
  lemma StepOtherChar(st: Scan, c: char)
    requires c != '{' && c != '}'
    requires Step(st, c).Ok?
    ensures Step(st, c).value == Scan(st.line, st.i + 1, st.depth, st.dollar)
  {
  }

  /** Outside an expression, an expression opens exactly on a `{` whose preceding
      character is a `$` that is not itself preceded by a backslash. */
  lemma StepOpens(st: Scan, c: char)
    requires st.depth == 0
    requires Step(st, c).Ok?
    ensures var st' := Step(st, c).value;
      st'.line == st.line && (st'.depth == 0 || st'.depth == 1) &&
      (st'.depth == 1 <==>
        c == '{' && At(st.line, st.i) == '$' && At(st.line, st.i - 1) != '\\') &&
      (st'.depth == 1 ==> st'.dollar == st.i + 1)
  {
  }

  /** The line is only rewritten by the iteration that closes an expression, and it
      is never rewritten while an expression stays open. */
  lemma StepRewritesOnlyOnClose(st: Scan, c: char)
    requires Step(st, c).Ok?
    ensures var st' := Step(st, c).value;
      (st'.line != st.line ==> IndexOk(st.line, st.i) && Closes(st, c) && st'.depth == 0) &&
      (st'.depth > 0 ==> st'.line == st.line)
  {
  }

  /** The iteration that closes an expression: depth returns to 0, every occurrence of
      the captured text is replaced and doubled quotes collapse, and `len(line) - i`
      is the same before and after the replacement. */
  lemma StepReplaces(st: Scan, c: char)
    requires IndexOk(st.line, st.i) && Closes(st, c)
    requires Step(st, c).Ok?
    ensures var st' := Step(st, c).value;
      st'.depth == 0 && st'.dollar == st.dollar &&
      st'.line == (if Captured(st) == "" then st.line else Rewrite(st.line, Captured(st))) &&
      |st'.line| - st'.i == |st.line| - (st.i + 1)
  {
  }

  /** When the current line still agrees with the original around the expression
      (its `{` and the closing `}` are where the original has them), the captured text
      runs from the `$` to the closing `}`: it starts with `${` and ends with `}`. */
  lemma CapturedExpression(orig: string, k: nat, st: Scan)
    requires Reachable(orig, k, st)
    requires IndexOk(st.line, st.i) && Closes(st, '}')
    requires 1 <= st.dollar && st.i + 1 < |st.line|
    requires st.line[st.dollar] == '{' && st.line[st.i + 1] == '}'
    ensures var v := Captured(st);
      v == st.line[st.dollar - 1..st.i + 2] &&
      StartsWith(v, "${") && v[|v| - 1] == '}'
  {
    var v := Captured(st);
    assert v == st.line[st.dollar - 1..st.i + 2];
    assert v[0] == '$' && v[1] == '{';
    assert v[..2] == "${";
  }

  /** No iteration has rewritten the line yet. */
  predicate Untouched(orig: string, k: nat)
    requires k <= |orig|
  {
    k == 0 || (Untouched(orig, k - 1) && ScanPrefix(orig, k).Ok? && ScanPrefix(orig, k).value.line == orig)
  }

  /** Until the first replacement, the scan's index is the original character's index
      and an open expression's `$` and `{` are where the original has them. */
  lemma {:induction false} UntouchedAligned(orig: string, k: nat)
    requires k <= |orig| && Untouched(orig, k)
    ensures ScanPrefix(orig, k).Ok?
    ensures var st := ScanPrefix(orig, k).value;
      st.line == orig && st.i == k - 1 &&
      (st.depth > 0 ==> 0 <= st.dollar < k && orig[st.dollar] == '{')
  {
    if k > 0 {
      UntouchedAligned(orig, k - 1);
      ScanReachable(orig, k - 1);
    }
  }

  /** The first expression the scan closes is captured from its `$` to its closing `}`
      (unless its `$` is the wrapped-around last character), and the line becomes that
      expression replaced everywhere by the placeholder, doubled quotes collapsed. */
  lemma FirstReplacement(orig: string, k: nat)
    requires k < |orig| && Untouched(orig, k)
    requires ScanPrefix(orig, k + 1).Ok?
    requires var st := ScanPrefix(orig, k).value;
      IndexOk(st.line, st.i) && Closes(st, orig[k]) && st.dollar >= 1
    ensures var st := ScanPrefix(orig, k).value; var v := Captured(st);
      st.dollar <= k && v == orig[st.dollar - 1..k + 1] && StartsWith(v, "${") && v[|v| - 1] == '}' &&
      ScanPrefix(orig, k + 1).value.line == Rewrite(orig, v)
  {
    UntouchedAligned(orig, k);
    ScanReachable(orig, k);
    ClosingStep(orig, k, ScanPrefix(orig, k).value);
  }

  /** The closing step of the first expression, on the state before it. */
  lemma ClosingStep(orig: string, k: nat, st: Scan)
    requires k < |orig| && Reachable(orig, k, st)
    requires st.line == orig && st.i == k - 1
    requires st.depth > 0 ==> 0 <= st.dollar < k && orig[st.dollar] == '{'
    requires IndexOk(st.line, st.i) && Closes(st, orig[k]) && st.dollar >= 1
    requires Step(st, orig[k]).Ok?
    ensures var v := Captured(st);
      st.dollar <= k && v == orig[st.dollar - 1..k + 1] && StartsWith(v, "${") && v[|v| - 1] == '}' &&
      Step(st, orig[k]).value.line == Rewrite(orig, v)
  {
    CapturedExpression(orig, k, st);
    StepReplaces(st, orig[k]);
  }

  /** With no `$`, no `{` or no `}`, no expression is ever closed: the scan raises
      nothing and leaves the line as it is. */
  lemma {:induction false} ScanKeepsLine(orig: string, k: nat)
    requires k <= |orig|
    requires '$' !in orig || '{' !in orig || '}' !in orig
    ensures ScanPrefix(orig, k).Ok?
    ensures var st := ScanPrefix(orig, k).value;
      st.line == orig && st.i == k - 1 &&
      ('$' !in orig || '{' !in orig ==> st.depth == 0)
  {
    if k > 0 {
      ScanKeepsLine(orig, k - 1);
      KeepsLineStep(orig, k, ScanPrefix(orig, k - 1).value);
    }
  }

  /** One step of `ScanKeepsLine`, from the state after `k - 1` characters. */
  lemma KeepsLineStep(orig: string, k: nat, st: Scan)
    requires 0 < k <= |orig|
    requires '$' !in orig || '{' !in orig || '}' !in orig
    requires ScanPrefix(orig, k - 1) == Ok(st)
    requires st.line == orig && st.i == k - 2 && ('$' !in orig || '{' !in orig ==> st.depth == 0)
    ensures ScanPrefix(orig, k).Ok?
    ensures var st' := ScanPrefix(orig, k).value;
      st'.line == orig && st'.i == k - 1 &&
      ('$' !in orig || '{' !in orig ==> st'.depth == 0)
  {
    var c := orig[k - 1];
    assert IndexOk(st.line, st.i);
    if c == '{' && At(st.line, st.i) == '$' {
      if k == 1 {
        assert orig[0] == '{' && orig[|orig| - 1] == '$';
        assert |orig| >= 2;
      }
      assert IndexOk(st.line, st.i - 1);
    }
    assert At(st.line, st.i) == if k >= 2 then orig[k - 2] else orig[|orig| - 1];
    StepKeepsLine(st, c);
    assert ScanPrefix(orig, k) == Step(st, c);
  }

  /** A step that closes nothing keeps the line and moves the index by one; outside an
      expression, it stays outside unless it reads `{` after `$`. */
  lemma StepKeepsLine(st: Scan, c: char)
    requires IndexOk(st.line, st.i)
    requires c == '{' && At(st.line, st.i) == '$' ==> IndexOk(st.line, st.i - 1)
    requires c != '}' || st.depth == 0
    ensures Step(st, c).Ok?
    ensures Step(st, c).value.line == st.line && Step(st, c).value.i == st.i + 1
    ensures st.depth == 0 && (c != '{' || At(st.line, st.i) != '$') ==> Step(st, c).value.depth == 0
  {
  }

  /** A line with no `$`, no `{` or no `}` comes back unchanged. */
  lemma SubstituteNoExpression(line: string)
    requires '$' !in line || '{' !in line || '}' !in line
    ensures Substitute(line) == Ok(line)
  {
    ScanKeepsLine(line, |line|);
  }

  /** The scan closes an expression at original index `j`. */
  predicate ClosesAt(orig: string, j: nat)
    requires j < |orig|
  {
    ScanPrefix(orig, j).Ok? && IndexOk(ScanPrefix(orig, j).value.line, ScanPrefix(orig, j).value.i) &&
    Closes(ScanPrefix(orig, j).value, orig[j])
  }

  /** A line that changes has had some expression closed: an expression whose depth
      never returns to 0 is never replaced. */
  lemma {:induction false} ScanChangedOnlyByClose(orig: string, k: nat) returns (j: nat)
    requires k <= |orig|
    requires ScanPrefix(orig, k).Ok? && ScanPrefix(orig, k).value.line != orig
    ensures j < k && ClosesAt(orig, j)
  {
    assert k > 0;
    if ScanPrefix(orig, k - 1).value.line != orig {
      j := ScanChangedOnlyByClose(orig, k - 1);
    } else {
      j := k - 1;
      ChangedHere(orig, j);
    }
  }

  /** The character whose step changes an unchanged line closes an expression. */
  lemma ChangedHere(orig: string, j: nat)
    requires j < |orig|
    requires ScanPrefix(orig, j).Ok? && ScanPrefix(orig, j).value.line == orig
    requires ScanPrefix(orig, j + 1).Ok? && ScanPrefix(orig, j + 1).value.line != orig
    ensures ClosesAt(orig, j)
  {
    StepRewritesOnlyOnClose(ScanPrefix(orig, j).value, orig[j]);
  }

  lemma SubstituteChangedOnlyByClose(line: string)
    requires Substitute(line).Ok? && Substitute(line).value != line
    ensures exists j :: 0 <= j < |line| && ClosesAt(line, j)
  {
    var j := ScanChangedOnlyByClose(line, |line|);
  }

  lemma PlaceholderHasNoQuote()
    ensures Collapse(Placeholder) == Placeholder
  {
    ReplaceAllWithoutFirstChar(Placeholder, "\"\"", "\"");
  }

  /** One more character of the scan. */
  lemma ScanStep(s: string, k: nat, st: Scan, st': Scan)
    requires k < |s| && ScanPrefix(s, k) == Ok(st) && Step(st, s[k]) == Ok(st')
    ensures ScanPrefix(s, k + 1) == Ok(st')
  {
  }

  /** An expression that is the whole line is captured as the whole line. */
  lemma ReplaceWhole(s: string)
    requires s != ""
    ensures Rewrite(s, s) == Placeholder
  {
    assert ReplaceAll(s, s, Placeholder) == Placeholder by {
      ReplaceAllHead(s, "", Placeholder);
      assert s + "" == s;
    }
    PlaceholderHasNoQuote();
  }

  /** A whole-line expression becomes the placeholder. */
  lemma ExampleSimple(s: string)
    requires s == "${a}"
    ensures Substitute(s) == Ok(Placeholder)
  {
    ScanStep(s, 0, Init(s), Scan(s, 0, 0, 0));
    ScanStep(s, 1, Scan(s, 0, 0, 0), Scan(s, 1, 1, 1));
    ScanStep(s, 2, Scan(s, 1, 1, 1), Scan(s, 2, 1, 1));
    assert Slice(s, 0, 4) == s;
    ReplaceWhole(s);
    ScanStep(s, 3, Scan(s, 2, 1, 1), Scan(Placeholder, 12, 0, 1));
  }

  /** A nested expression is replaced as a whole, by depth counting. */
  lemma ExampleNested(s: string)
    requires s == "${f(${y})}"
    ensures Substitute(s) == Ok(Placeholder)
  {
    NestedOuterOpen(s);
    NestedInner(s);
    assert Slice(s, 0, 10) == s;
    ReplaceWhole(s);
    ScanStep(s, 9, Scan(s, 8, 1, 1), Scan(Placeholder, 12, 0, 1));
  }

  /** `${f(` opens the outer expression. */
  lemma NestedOuterOpen(s: string)
    requires s == "${f(${y})}"
    ensures ScanPrefix(s, 4) == Ok(Scan(s, 3, 1, 1))
  {
    ScanStep(s, 0, Init(s), Scan(s, 0, 0, 0));
    ScanStep(s, 1, Scan(s, 0, 0, 0), Scan(s, 1, 1, 1));
    ScanStep(s, 2, Scan(s, 1, 1, 1), Scan(s, 2, 1, 1));
    ScanStep(s, 3, Scan(s, 2, 1, 1), Scan(s, 3, 1, 1));
  }

  /** `${y})` goes one level deeper and back, replacing nothing. */
  lemma NestedInner(s: string)
    requires s == "${f(${y})}" && ScanPrefix(s, 4) == Ok(Scan(s, 3, 1, 1))
    ensures ScanPrefix(s, 9) == Ok(Scan(s, 8, 1, 1))
  {
    ScanStep(s, 4, Scan(s, 3, 1, 1), Scan(s, 4, 1, 1));
    ScanStep(s, 5, Scan(s, 4, 1, 1), Scan(s, 5, 2, 1));
    ScanStep(s, 6, Scan(s, 5, 2, 1), Scan(s, 6, 2, 1));
    ScanStep(s, 7, Scan(s, 6, 2, 1), Scan(s, 7, 1, 1));
    ScanStep(s, 8, Scan(s, 7, 1, 1), Scan(s, 8, 1, 1));
  }

  /** A `$` preceded by a backslash does not open an expression. */
  lemma ExampleEscapedDollar(s: string)
    requires s == "\\${a}"
    ensures Substitute(s) == Ok(s)
  {
    ScanStep(s, 0, Init(s), Scan(s, 0, 0, 0));
    ScanStep(s, 1, Scan(s, 0, 0, 0), Scan(s, 1, 0, 0));
    ScanStep(s, 2, Scan(s, 1, 0, 0), Scan(s, 2, 0, 0));
    ScanStep(s, 3, Scan(s, 2, 0, 0), Scan(s, 3, 0, 0));
    ScanStep(s, 4, Scan(s, 3, 0, 0), Scan(s, 4, 0, 0));
  }

  /** A `{` right after the opening `${` is not counted, so `${{a}}` is captured as
      `${{a}` and its last `}` is left behind. */
  lemma ExampleDoubleBrace(s: string)
    requires s == "${{a}}"
    ensures Substitute(s) == Ok(Placeholder + "}")
  {
    var v := "${{a}";
    ScanStep(s, 0, Init(s), Scan(s, 0, 0, 0));
    ScanStep(s, 1, Scan(s, 0, 0, 0), Scan(s, 1, 1, 1));
    ScanStep(s, 2, Scan(s, 1, 1, 1), Scan(s, 2, 1, 1));
    ScanStep(s, 3, Scan(s, 2, 1, 1), Scan(s, 3, 1, 1));
    assert Slice(s, 0, 5) == v;
    assert Rewrite(s, v) == Placeholder + "}" by {
      assert s == v + "}";
      ReplaceAllHead(v, "}", Placeholder);
      assert ReplaceAll("}", v, Placeholder) == "}";
      ReplaceAllWithoutFirstChar(Placeholder + "}", "\"\"", "\"");
    }
    ScanStep(s, 4, Scan(s, 3, 1, 1), Scan(Placeholder + "}", 12, 0, 1));
    ScanStep(s, 5, Scan(Placeholder + "}", 12, 0, 1), Scan(Placeholder + "}", 13, 0, 1));
  }

  /** A step that neither opens nor closes an expression only moves the index. */
  lemma StepQuiet(st: Scan, c: char)
    requires IndexOk(st.line, st.i)
    requires c == '}' ==> st.depth == 0
    requires c == '{' ==> st.depth == 0 && At(st.line, st.i) != '$'
    ensures Step(st, c) == Ok(Scan(st.line, st.i + 1, st.depth, st.dollar))
  {
  }

  /** An unescaped `${` outside an expression opens one at the `{`. */
  lemma StepOpensAt(st: Scan)
    requires st.depth == 0 && 1 <= st.i < |st.line|
    requires st.line[st.i] == '$' && st.line[st.i - 1] != '\\'
    ensures Step(st, '{') == Ok(Scan(st.line, st.i + 1, 1, st.i + 1))
  {
  }

  /** The closing step with a non-empty capture `v` whose rewrite of the line is
      `line2`: the index moves by the change in length of the whole line. */
  lemma StepClosesWith(st: Scan, c: char, v: string, line2: string)
    requires IndexOk(st.line, st.i) && Closes(st, c)
    requires Captured(st) == v && v != "" && Rewrite(st.line, v) == line2
    ensures Step(st, c) == Ok(Scan(line2, st.i + 1 - (|st.line| - |line2|), 0, st.dollar))
  {
  }

  /** Python's negative indexing at the first character: a `{` at index 0 reads the
      last character as its `$` and opens an expression, but the captured slice
      `line[-1:3]` is empty, so nothing is replaced. */
  lemma ExampleWrapAround(s: string)
    requires s == "{a}$"
    ensures Substitute(s) == Ok(s)
  {
    ScanStep(s, 0, Init(s), Scan(s, 0, 1, 0));
    ScanStep(s, 1, Scan(s, 0, 1, 0), Scan(s, 1, 1, 0));
    assert Slice(s, -1, 3) == "";
    ScanStep(s, 2, Scan(s, 1, 1, 0), Scan(s, 2, 0, 0));
    ScanStep(s, 3, Scan(s, 2, 0, 0), Scan(s, 3, 0, 0));
  }

  /** An expression at the head of a line, where it does not occur again and no quote
      follows, becomes the placeholder. */
  lemma RewriteHead(v: string, rest: string)
    requires v != "" && ReplaceAll(rest, v, Placeholder) == rest && '"' !in rest
    ensures Rewrite(v + rest, v) == Placeholder + rest
  {
    ReplaceAllHead(v, rest, Placeholder);
    assert '"' !in Placeholder;
    ReplaceAllWithoutFirstChar(Placeholder + rest, "\"\"", "\"");
  }

  /** An expression at the end of a line, after text holding neither its first
      character nor a quote, becomes the placeholder. */
  lemma RewriteTail(x: string, v: string)
    requires v != "" && v[0] !in x && '"' !in x
    ensures Rewrite(x + v, v) == x + Placeholder
  {
    ReplaceAllPast(x, v, v, Placeholder);
    assert v + "" == v;
    ReplaceAllHead(v, "", Placeholder);
    assert ReplaceAll("", v, Placeholder) == "";
    assert ReplaceAll(x + v, v, Placeholder) == x + Placeholder;
    assert '"' !in Placeholder;
    assert '"' !in x + Placeholder;
    ReplaceAllWithoutFirstChar(x + Placeholder, "\"\"", "\"");
    assert Collapse(x + Placeholder) == x + Placeholder;
  }

  /** Two expressions apart on one line are both replaced. */
  lemma ExampleTwoExpressions(s: string)
    requires s == "${a} ${b}"
    ensures Substitute(s) == Ok(Placeholder + " " + Placeholder)
  {
    var v, w, x := "${a}", "${b}", Placeholder + " ";
    var line := x + w;
    TwoExpressionsFirst(s, v, w, line);
    TwoExpressionsSecond(s, w, x, line);
  }

  /** `${a}` closes at index 3 and the index moves to the end of its placeholder. */
  lemma TwoExpressionsFirst(s: string, v: string, w: string, line: string)
    requires s == "${a} ${b}" && v == "${a}" && w == "${b}"
    requires line == Placeholder + " " + w
    ensures ScanPrefix(s, 4) == Ok(Scan(line, 12, 0, 1))
  {
    ScanStep(s, 0, Init(s), Scan(s, 0, 0, 0));
    ScanStep(s, 1, Scan(s, 0, 0, 0), Scan(s, 1, 1, 1));
    ScanStep(s, 2, Scan(s, 1, 1, 1), Scan(s, 2, 1, 1));
    var rest := " " + w;
    assert s == v + rest;
    TwoExpressionsRewrite(v, w, rest);
    StepClosesWith(Scan(s, 2, 1, 1), s[3], v, line);
    ScanStep(s, 3, Scan(s, 2, 1, 1), Scan(line, 12, 0, 1));
  }

  /** Only the head `${a}` of `${a} ${b}` is rewritten. */
  lemma TwoExpressionsRewrite(v: string, w: string, rest: string)
    requires v == "${a}" && w == "${b}" && rest == " " + w
    ensures Rewrite(v + rest, v) == Placeholder + rest
  {
    ReplaceAllPast(" ", w, v, Placeholder);
    assert v[0] == '$' && w[1..] == "{b}" && v[0] !in w[1..];
    assert w[..|v|] == w && w[2] != v[2];
    ReplaceAllMissesHead(w, v, Placeholder);
    RewriteHead(v, rest);
  }

  /** `${b}` then opens at index 15 of the rewritten line and is replaced in turn. */
  lemma TwoExpressionsSecond(s: string, w: string, x: string, line: string)
    requires s == "${a} ${b}" && w == "${b}" && x == Placeholder + " " && line == x + w
    requires ScanPrefix(s, 4) == Ok(Scan(line, 12, 0, 1))
    ensures Substitute(s) == Ok(Placeholder + " " + Placeholder)
  {
    assert line[12] == 'e' && line[13] == ' ' && line[14] == '$' && line[15] == '{';
    StepQuiet(Scan(line, 12, 0, 1), s[4]);
    ScanStep(s, 4, Scan(line, 12, 0, 1), Scan(line, 13, 0, 1));
    StepQuiet(Scan(line, 13, 0, 1), s[5]);
    ScanStep(s, 5, Scan(line, 13, 0, 1), Scan(line, 14, 0, 1));
    StepOpensAt(Scan(line, 14, 0, 1));
    ScanStep(s, 6, Scan(line, 14, 0, 1), Scan(line, 15, 1, 15));
    StepQuiet(Scan(line, 15, 1, 15), s[7]);
    ScanStep(s, 7, Scan(line, 15, 1, 15), Scan(line, 16, 1, 15));
    TwoExpressionsClose(s, w, x, line);
  }

  /** `${b}` closes at the last character and becomes the placeholder. */
  lemma TwoExpressionsClose(s: string, w: string, x: string, line: string)
    requires s == "${a} ${b}" && w == "${b}" && x == Placeholder + " " && line == x + w
    requires ScanPrefix(s, 8) == Ok(Scan(line, 16, 1, 15))
    ensures Substitute(s) == Ok(Placeholder + " " + Placeholder)
  {
    assert line[14..18] == w;
    RewriteTail(x, w);
    var done := x + Placeholder;
    StepClosesWith(Scan(line, 16, 1, 15), s[8], w, done);
    ScanStep(s, 8, Scan(line, 16, 1, 15), Scan(done, 26, 0, 15));
  }

  /** A line ending in `""` loses one of the quotes to the collapse. */
  lemma CollapseTrailingQuotes(x: string)
    requires '"' !in x
    ensures Collapse(x + "\"\"") == x + "\""
  {
    ReplaceAllPast(x, "\"\"", "\"\"", "\"");
    assert "\"\"" + "" == "\"\"";
    ReplaceAllHead("\"\"", "", "\"");
    assert ReplaceAll("", "\"\"", "\"") == "";
  }

  /** A string whose head is not the pattern and whose tail lacks the pattern's first
      character is left alone. */
  lemma ReplaceAllMissesHead(s: string, pat: string, rep: string)
    requires pat != "" && |s| >= |pat| && s[..|pat|] != pat && pat[0] !in s[1..]
    ensures ReplaceAll(s, pat, rep) == s
  {
    assert ReplaceAll(s, pat, rep) == [s[0]] + ReplaceAll(s[1..], pat, rep);
    ReplaceAllWithoutFirstChar(s[1..], pat, rep);
    assert s == [s[0]] + s[1..];
  }

  /** The index is realigned by the whole change in length, including the `""` that
      the collapse removes AFTER the index: on `${a}${b}""` the index lands one short of
      the end of the placeholder, the `{` of `${b}` then reads the `e` before it instead
      of its `$`, and `${b}` is left in the line. */
  lemma ExampleQuoteShiftsIndex(s: string)
    requires s == "${a}${b}\"\""
    ensures Substitute(s) == Ok(Placeholder + "${b}\"")
  {
    var v, w := "${a}", "${b}";
    var line := Placeholder + w + "\"";
    QuoteShiftFirst(s, v, w, line);
    QuoteShiftMissesDollar(s, w, line);
    StepQuiet(Scan(line, 13, 0, 1), s[6]);
    ScanStep(s, 6, Scan(line, 13, 0, 1), Scan(line, 14, 0, 1));
    StepQuiet(Scan(line, 14, 0, 1), s[7]);
    ScanStep(s, 7, Scan(line, 14, 0, 1), Scan(line, 15, 0, 1));
    StepQuiet(Scan(line, 15, 0, 1), s[8]);
    ScanStep(s, 8, Scan(line, 15, 0, 1), Scan(line, 16, 0, 1));
    StepQuiet(Scan(line, 16, 0, 1), s[9]);
    ScanStep(s, 9, Scan(line, 16, 0, 1), Scan(line, 17, 0, 1));
    assert |s| == 10 && line == Placeholder + "${b}\"";
  }

  /** The `$` of `${b}` is read at index 12 and its `{` at 13, after the `e` of the
      placeholder, so nothing opens. */
  lemma QuoteShiftMissesDollar(s: string, w: string, line: string)
    requires s == "${a}${b}\"\"" && w == "${b}" && line == Placeholder + w + "\""
    requires ScanPrefix(s, 4) == Ok(Scan(line, 11, 0, 1))
    ensures ScanPrefix(s, 6) == Ok(Scan(line, 13, 0, 1))
  {
    assert line[11] == 'r' && line[12] == 'e';
    StepQuiet(Scan(line, 11, 0, 1), s[4]);
    ScanStep(s, 4, Scan(line, 11, 0, 1), Scan(line, 12, 0, 1));
    StepQuiet(Scan(line, 12, 0, 1), s[5]);
    ScanStep(s, 5, Scan(line, 12, 0, 1), Scan(line, 13, 0, 1));
  }

  /** `${a}` closes at index 3; the line grows by 9 and loses a quote, so the index
      moves to 11 while the placeholder ends at 12. */
  lemma QuoteShiftFirst(s: string, v: string, w: string, line: string)
    requires s == "${a}${b}\"\"" && v == "${a}" && w == "${b}"
    requires line == Placeholder + w + "\""
    ensures ScanPrefix(s, 4) == Ok(Scan(line, 11, 0, 1))
  {
    ScanStep(s, 0, Init(s), Scan(s, 0, 0, 0));
    ScanStep(s, 1, Scan(s, 0, 0, 0), Scan(s, 1, 1, 1));
    ScanStep(s, 2, Scan(s, 1, 1, 1), Scan(s, 2, 1, 1));
    RewriteBeforeQuotes(s, v, w);
    StepClosesWith(Scan(s, 2, 1, 1), s[3], v, line);
    ScanStep(s, 3, Scan(s, 2, 1, 1), Scan(line, 11, 0, 1));
  }

  /** `${a}` at the head of `${a}${b}""` becomes the placeholder and the trailing `""`
      one quote; the part after `${a}` alone becomes `${b}"`. */
  lemma RewriteBeforeQuotes(s: string, v: string, w: string)
    requires s == "${a}${b}\"\"" && v == "${a}" && w == "${b}"
    ensures Rewrite(s, v) == Placeholder + w + "\""
    ensures Rewrite(s[4..], v) == w + "\""
  {
    var rest := w + "\"\"";
    assert s == v + rest && s[4..] == rest;
    ReplaceAllMissesHead(rest, v, Placeholder);
    ReplaceAllHead(v, rest, Placeholder);
    assert Placeholder + rest == (Placeholder + w) + "\"\"";
    assert '"' !in Placeholder + w;
    CollapseTrailingQuotes(Placeholder + w);
    CollapseTrailingQuotes(w);
  }

  /** The scan as evidently intended: on a closing `}` at an index inside the line, the
      part read so far and the part still to read are rewritten apart, and the index is
      put on the last character of the rewritten read part, so text after the index
      never moves it. Otherwise it is the scan as written. */
  function StepIntended(st: Scan, c: char): PyResult<Scan> {
    var i := st.i + 1;
    match Step(st, c)
    case IndexError => IndexError
    case Ok(st') =>
      if !(0 <= i < |st.line|) then Ok(st')
      else
        var tfVar := CaptureAt(st, i, At(st.line, i - 1), c);
        if tfVar == "" then Ok(st')
        else
          var read := Rewrite(st.line[..i + 1], tfVar);
          Ok(Scan(read + Rewrite(st.line[i + 1..], tfVar), |read| - 1, st'.depth, st'.dollar))
  }

  /** The corrected scan after the first `k` characters. */
  function ScanIntended(orig: string, k: nat): PyResult<Scan>
    requires k <= |orig|
  {
    if k == 0 then Ok(Init(orig))
    else match ScanIntended(orig, k - 1)
      case IndexError => IndexError
      case Ok(st) => StepIntended(st, orig[k - 1])
  }

  /** The corrected substituter. */
  function SubstituteIntended(line: string): PyResult<string> {
    match ScanIntended(line, |line|)
    case IndexError => IndexError
    case Ok(st) => Ok(st.line)
  }

  /** The corrected step differs from the written one only where the rewrite touches
      the text after the index: when the rewrite of the whole line is the rewrite of the
      part read so far followed by the unread part, itself left unchanged, the two
      steps agree. */
  lemma IntendedAgrees(st: Scan, c: char, v: string)
    requires 0 <= st.i + 1 < |st.line|
    requires CaptureAt(st, st.i + 1, At(st.line, st.i), c) == v && v != ""
    requires Rewrite(st.line[st.i + 2..], v) == st.line[st.i + 2..]
    requires Rewrite(st.line, v) == Rewrite(st.line[..st.i + 2], v) + st.line[st.i + 2..]
    ensures StepIntended(st, c) == Step(st, c)
  {
    var read, unread := Rewrite(st.line[..st.i + 2], v), st.line[st.i + 2..];
    assert |st.line| == |st.line[..st.i + 2]| + |unread|;
    assert Step(st, c) == Ok(Scan(read + unread, |read| - 1, 0, st.dollar));
  }

  /** Without a capture the corrected step is the written one. */
  lemma IntendedQuiet(st: Scan, c: char)
    requires c == '}' ==> st.depth != 1
    ensures StepIntended(st, c) == Step(st, c)
  {
  }

  /** The corrected closing step, with `read` and `unread` the rewrites of the two
      parts of the line. */
  lemma IntendedClosesWith(st: Scan, c: char, v: string, read: string, unread: string)
    requires 0 <= st.i + 1 < |st.line| && Closes(st, c)
    requires Captured(st) == v && v != ""
    requires Rewrite(st.line[..st.i + 2], v) == read && Rewrite(st.line[st.i + 2..], v) == unread
    ensures StepIntended(st, c) == Ok(Scan(read + unread, |read| - 1, 0, st.dollar))
  {
  }

  /** One more character of the corrected scan. */
  lemma ScanIntendedStep(s: string, k: nat, st: Scan, st': Scan)
    requires k < |s| && ScanIntended(s, k) == Ok(st) && StepIntended(st, s[k]) == Ok(st')
    ensures ScanIntended(s, k + 1) == Ok(st')
  {
  }

  /** The corrected scan replaces both expressions of `${a}${b}""`. */
  lemma ExampleQuoteIntended(s: string)
    requires s == "${a}${b}\"\""
    ensures SubstituteIntended(s) == Ok(Placeholder + Placeholder + "\"")
  {
    var v, w, q := "${a}", "${b}", "\"";
    var line := Placeholder + w + q;
    var done := Placeholder + Placeholder + q;
    QuoteIntendedRunFirst(s, v, w, line);
    QuoteIntendedRunOpen(s, w, line);
    QuoteIntendedRunSecond(s, w, q, line, done);
    assert |s| == 10;
  }

  lemma QuoteIntendedRunFirst(s: string, v: string, w: string, line: string)
    requires s == "${a}${b}\"\"" && v == "${a}" && w == "${b}"
    requires line == Placeholder + w + "\""
    ensures ScanIntended(s, 4) == Ok(Scan(line, 12, 0, 1))
  {
    QuoteIntendedFirst(s, v, w, line);
    ScanIntendedStep(s, 0, Init(s), Scan(s, 0, 0, 0));
    ScanIntendedStep(s, 1, Scan(s, 0, 0, 0), Scan(s, 1, 1, 1));
    ScanIntendedStep(s, 2, Scan(s, 1, 1, 1), Scan(s, 2, 1, 1));
    ScanIntendedStep(s, 3, Scan(s, 2, 1, 1), Scan(line, 12, 0, 1));
  }

  lemma QuoteIntendedRunOpen(s: string, w: string, line: string)
    requires s == "${a}${b}\"\"" && w == "${b}" && line == Placeholder + w + "\""
    requires ScanIntended(s, 4) == Ok(Scan(line, 12, 0, 1))
    ensures ScanIntended(s, 7) == Ok(Scan(line, 15, 1, 14))
  {
    QuoteIntendedOpen(s, w, line);
    ScanIntendedStep(s, 4, Scan(line, 12, 0, 1), Scan(line, 13, 0, 1));
    ScanIntendedStep(s, 5, Scan(line, 13, 0, 1), Scan(line, 14, 1, 14));
    ScanIntendedStep(s, 6, Scan(line, 14, 1, 14), Scan(line, 15, 1, 14));
  }

  lemma QuoteIntendedRunSecond(s: string, w: string, q: string, line: string, done: string)
    requires s == "${a}${b}\"\"" && w == "${b}" && q == "\""
    requires line == Placeholder + w + q && done == Placeholder + Placeholder + q
    requires ScanIntended(s, 7) == Ok(Scan(line, 15, 1, 14))
    ensures ScanIntended(s, 10) == Ok(Scan(done, 27, 0, 14))
  {
    QuoteIntendedSecond(s, w, q, line, done);
    ScanIntendedStep(s, 7, Scan(line, 15, 1, 14), Scan(done, 25, 0, 14));
    ScanIntendedStep(s, 8, Scan(done, 25, 0, 14), Scan(done, 26, 0, 14));
    ScanIntendedStep(s, 9, Scan(done, 26, 0, 14), Scan(done, 27, 0, 14));
  }

  /** `${a}` closes at index 3 and the index lands on the last character of the
      placeholder, 12. */
  lemma QuoteIntendedFirst(s: string, v: string, w: string, line: string)
    requires s == "${a}${b}\"\"" && v == "${a}" && w == "${b}"
    requires line == Placeholder + w + "\""
    ensures StepIntended(Init(s), s[0]) == Ok(Scan(s, 0, 0, 0))
    ensures StepIntended(Scan(s, 0, 0, 0), s[1]) == Ok(Scan(s, 1, 1, 1))
    ensures StepIntended(Scan(s, 1, 1, 1), s[2]) == Ok(Scan(s, 2, 1, 1))
    ensures StepIntended(Scan(s, 2, 1, 1), s[3]) == Ok(Scan(line, 12, 0, 1))
  {
    IntendedQuiet(Init(s), s[0]);
    IntendedQuiet(Scan(s, 0, 0, 0), s[1]);
    IntendedQuiet(Scan(s, 1, 1, 1), s[2]);
    assert s[..4] == v;
    ReplaceWhole(v);
    RewriteBeforeQuotes(s, v, w);
    IntendedClosesWith(Scan(s, 2, 1, 1), s[3], v, Placeholder, w + "\"");
    assert Placeholder + (w + "\"") == line;
  }

  /** The corrected scan reads the `$` of `${b}` before its `{` and opens it. */
  lemma QuoteIntendedOpen(s: string, w: string, line: string)
    requires s == "${a}${b}\"\"" && w == "${b}" && line == Placeholder + w + "\""
    ensures StepIntended(Scan(line, 12, 0, 1), s[4]) == Ok(Scan(line, 13, 0, 1))
    ensures StepIntended(Scan(line, 13, 0, 1), s[5]) == Ok(Scan(line, 14, 1, 14))
    ensures StepIntended(Scan(line, 14, 1, 14), s[6]) == Ok(Scan(line, 15, 1, 14))
  {
    assert line[12] == 'e' && line[13] == '$';
    StepQuiet(Scan(line, 12, 0, 1), s[4]);
    IntendedQuiet(Scan(line, 12, 0, 1), s[4]);
    StepOpensAt(Scan(line, 13, 0, 1));
    IntendedQuiet(Scan(line, 13, 0, 1), s[5]);
    StepQuiet(Scan(line, 14, 1, 14), s[6]);
    IntendedQuiet(Scan(line, 14, 1, 14), s[6]);
  }

  /** `${b}` closes at index 16 of the line and becomes the placeholder; the quote
      after it stays. */
  lemma QuoteIntendedSecond(s: string, w: string, q: string, line: string, done: string)
    requires s == "${a}${b}\"\"" && w == "${b}" && q == "\""
    requires line == Placeholder + w + q && done == Placeholder + Placeholder + q
    ensures StepIntended(Scan(line, 15, 1, 14), s[7]) == Ok(Scan(done, 25, 0, 14))
    ensures StepIntended(Scan(done, 25, 0, 14), s[8]) == Ok(Scan(done, 26, 0, 14))
    ensures StepIntended(Scan(done, 26, 0, 14), s[9]) == Ok(Scan(done, 27, 0, 14))
  {
    assert line[13..17] == w && line[..17] == Placeholder + w && line[17..] == q;
    RewriteTail(Placeholder, w);
    assert Rewrite(q, w) == q;
    IntendedClosesWith(Scan(line, 15, 1, 14), s[7], w, Placeholder + Placeholder, q);
    assert done[24] == 'r' && done[25] == 'e' && |done| == 27;
    StepQuiet(Scan(done, 25, 0, 14), s[8]);
    IntendedQuiet(Scan(done, 25, 0, 14), s[8]);
    StepQuiet(Scan(done, 26, 0, 14), s[9]);
    IntendedQuiet(Scan(done, 26, 0, 14), s[9]);
  }

  /** A word made of characters found neither in the placeholder nor in a quote. */
  predicate Foreign(kw: string) {
    kw != "" && Disjoint(kw, Placeholder) && Disjoint(kw, "\"")
  }

  /** Replacing expressions never creates an occurrence of such a word. */
  lemma {:induction false} ScanKeepsAbsent(orig: string, k: nat, kw: string)
    requires k <= |orig| && Foreign(kw) && !Contains(orig, kw)
    requires ScanPrefix(orig, k).Ok?
    ensures !Contains(ScanPrefix(orig, k).value.line, kw)
  {
    if k > 0 {
      var st := ScanPrefix(orig, k - 1).value;
      ScanKeepsAbsent(orig, k - 1, kw);
      var st' := ScanPrefix(orig, k).value;
      if st'.line != st.line {
        StepRewritesOnlyOnClose(st, orig[k - 1]);
        StepReplaces(st, orig[k - 1]);
        var v := Captured(st);
        ReplaceAllKeepsAbsent(st.line, v, Placeholder, kw);
        ReplaceAllKeepsAbsent(ReplaceAll(st.line, v, Placeholder), "\"\"", "\"", kw);
      }
    }
  }

  lemma SubstituteKeepsAbsent(line: string, kw: string)
    requires Foreign(kw) && !Contains(line, kw)
    requires Substitute(line).Ok?
    ensures !Contains(Substitute(line).value, kw)
  {
    ScanKeepsAbsent(line, |line|, kw);
  }
}
