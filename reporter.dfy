/** The end of a run: the blocks of every file are extracted, checked and their messages
    fixed up, and the exit status is decided from what is left. */
module Reporter {
  import opened Text
  import opened Extractor
  import opened Validator
  import opened Corrector

  /** The exit status as written: 1 as soon as the error dictionary holds any file,
      whatever that file's report says. It is a status, and it never misses a failure
      the intended status reports. */
  function ExitStatus(errors: map<string, map<string, string>>): (r: int)
    ensures r == 0 || r == 1
    ensures IntendedExitStatus(errors) == 1 ==> r == 1
  {
    if |errors| > 0 then 1 else 0
  }

  /** The exit status as evidently intended: 1 when some file's report names an error. */
  function IntendedExitStatus(errors: map<string, map<string, string>>): int {
    if exists f :: f in errors && errors[f] != map[] then 1 else 0
  }

  /** Some block text of some file fails to parse. */
  predicate Failing(blocks: map<string, map<string, set<Entry>>>, parse: string -> JsonOutcome) {
    exists f, kw :: f in blocks && kw in blocks[f] && Fails(blocks[f][kw], parse)
  }

  /** Every parser error names a line and a column. A `JSONDecodeError` does; the
      `ValueError` of the integer-digit limit does not. */
  ghost predicate Located(parse: string -> JsonOutcome) {
    forall t :: parse(t).Invalid? ==> HasLineColumn(parse(t).message)
  }

  /** A message that names a line and a column is not empty. */
  lemma LocatedNotEmpty(msg: string)
    requires HasLineColumn(msg)
    ensures msg != ""
  {
    assert MatchAt(msg, FindLineColumn(msg, 0).value);
  }

  /** What the extractor yields is what the fix-up can work on: every file present has
      some keyword, every keyword is an enclosure keyword and carries a start line. */
  lemma BlocksWellFormed(files: map<string, seq<string>>)
    requires JsonBlocks(files).Ok?
    ensures forall f :: f in JsonBlocks(files).value ==>
              JsonBlocks(files).value[f] != map[] && WellFormed(JsonBlocks(files).value[f])
  {
    forall f: string | f in JsonBlocks(files).value
      ensures JsonBlocks(files).value[f] != map[] && WellFormed(JsonBlocks(files).value[f])
    {
      var lines: seq<string> := files[f];
      var defs: map<string, set<Entry>> := FileBlocks(lines).value;
      assert JsonBlocks(files).value[f] == defs;
      forall kw: string | kw in defs
        ensures kw in Enclosures && exists e: Entry :: e in defs[kw] && e.StartLine?
      {
        assert kw in Enclosures[..|Enclosures|];
        assert Extract(lines, kw) == Ok(defs[kw]);
        ExtractSound(lines, kw);
        var e: Entry :| e in defs[kw];
        if e.Block? {
          assert exists t :: Block(t) in defs[kw];
        }
      }
    }
  }

  /** The reports of checked blocks satisfy what the fix-up demands. */
  lemma ReportCorrectable(blocks: map<string, map<string, set<Entry>>>, parse: string -> JsonOutcome,
                          errors: map<string, map<string, string>>)
    requires Report(blocks, parse, errors) && Located(parse)
    requires forall f :: f in blocks ==> blocks[f] != map[] && WellFormed(blocks[f])
    ensures Correctable(errors, blocks)
  {
    forall f, kw | f in errors && kw in errors[f] && errors[f][kw] != ""
      ensures HasLineColumn(errors[f][kw])
    {
      assert Explains(blocks[f][kw], parse, errors[f][kw]);
      var e :| e in blocks[f][kw] && e.Block? && parse(e.text) == Invalid(errors[f][kw]);
    }
  }

  /** What the fix-up leaves of the reports: every file keeps its place, with its report
      shifted. */
  ghost predicate FixedUp(blocks: map<string, map<string, set<Entry>>>, errors: map<string, map<string, string>>,
                          corrected: map<string, map<string, string>>) {
    corrected.Keys == errors.Keys &&
    forall f :: f in corrected ==> f in blocks && Shifted(blocks[f], errors[f], corrected[f])
  }

  /** With located messages, the intended status is 1 exactly when some block text fails
      to parse, whichever start line each file's messages were shifted by. */
  lemma IntendedStatusIffFailing(blocks: map<string, map<string, set<Entry>>>, parse: string -> JsonOutcome,
                                 errors: map<string, map<string, string>>, corrected: map<string, map<string, string>>)
    requires Report(blocks, parse, errors) && Located(parse) && FixedUp(blocks, errors, corrected)
    ensures IntendedExitStatus(corrected) == 1 <==> Failing(blocks, parse)
  {
    if IntendedExitStatus(corrected) == 1 {
      StatusOnlyOnFailure(blocks, parse, errors, corrected);
    }
    if Failing(blocks, parse) {
      FailureSetsStatus(blocks, parse, errors, corrected);
    }
  }

  lemma StatusOnlyOnFailure(blocks: map<string, map<string, set<Entry>>>, parse: string -> JsonOutcome,
                            errors: map<string, map<string, string>>, corrected: map<string, map<string, string>>)
    requires Report(blocks, parse, errors) && FixedUp(blocks, errors, corrected)
    requires IntendedExitStatus(corrected) == 1
    ensures Failing(blocks, parse)
  {
    var f :| f in corrected && corrected[f] != map[];
    assert errors[f] != map[];
    var kw :| kw in errors[f];
    assert FileReport(blocks[f], parse, errors[f]);
    assert Fails(blocks[f][kw], parse);
  }

  lemma FailureSetsStatus(blocks: map<string, map<string, set<Entry>>>, parse: string -> JsonOutcome,
                          errors: map<string, map<string, string>>, corrected: map<string, map<string, string>>)
    requires Report(blocks, parse, errors) && Located(parse) && FixedUp(blocks, errors, corrected)
    requires Failing(blocks, parse)
    ensures IntendedExitStatus(corrected) == 1
  {
    var f, kw :| f in blocks && kw in blocks[f] && Fails(blocks[f][kw], parse);
    var report := errors[f];
    assert kw in report by {
      assert FileReport(blocks[f], parse, report);
    }
    assert report[kw] != "" by {
      assert Explains(blocks[f][kw], parse, report[kw]);
      var e :| e in blocks[f][kw] && e.Block? && parse(e.text) == Invalid(report[kw]);
      LocatedNotEmpty(report[kw]);
    }
    assert f in corrected && report != map[];
    var extra: nat :| corrected[f] == CorrectReport(report, extra);
    assert kw in CorrectReport(report, extra);
    assert f in corrected && corrected[f] != map[];
  }

  /** The run as written: a valid block in one file is enough for status 1. The report of
      that file is empty, before and after the fix-up, so nothing is printed as an error. */
  lemma ValidBlockStillFails(blocks: map<string, map<string, set<Entry>>>, parse: string -> JsonOutcome,
                             errors: map<string, map<string, string>>)
    requires blocks == map["main.tf" := map["DEFINITION" := {Block("{}"), StartLine(0)}]]
    requires forall t :: parse(t) == Parsed
    requires Report(blocks, parse, errors)
    ensures errors == map["main.tf" := map[]]
    ensures ExitStatus(errors) == 1 && IntendedExitStatus(errors) == 0
  {
    assert errors.Keys == {"main.tf"};
    assert errors["main.tf"] == map[] by {
      assert FileReport(blocks["main.tf"], parse, errors["main.tf"]);
    }
  }

  /** One run over the files, each given by its path and its lines. The parser is a
      parameter; a run that meets an `IndexError` stops there. */
  method Run(files: map<string, seq<string>>, parse: string -> JsonOutcome)
    returns (status: PyResult<int>, errors: map<string, map<string, string>>)
    requires Located(parse)
    ensures status.Ok? <==> JsonBlocks(files).Ok?
    ensures status.Ok? ==> status.value == ExitStatus(errors) && errors.Keys == JsonBlocks(files).value.Keys
    ensures status.Ok? ==> (status.value == 1 <==> JsonBlocks(files).value != map[])
    ensures status.Ok? ==> (IntendedExitStatus(errors) == 1 <==> Failing(JsonBlocks(files).value, parse))
  {
    var blocks := GetJsonsFromTfFiles(files);
    if blocks.IndexError? {
      return IndexError, map[];
    }
    var found := ValidateJson(blocks.value, parse);
    BlocksWellFormed(files);
    ReportCorrectable(blocks.value, parse, found);
    errors := SubstituteLine(found, blocks.value);
    IntendedStatusIffFailing(blocks.value, parse, found, errors);
    status := Ok(ExitStatus(errors));
  }
}
