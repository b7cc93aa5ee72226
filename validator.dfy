/** The JSON check: every block text of every file is handed to a JSON parser, and for
    each keyword of a file one failure, if any, is kept. The parser itself is a
    parameter: the model says nothing about which texts are JSON. */
module Validator {
  import opened Extractor

  /** What parsing a text gives: success, or the message of the error raised. */
  datatype JsonOutcome = Parsed | Invalid(message: string)

  /** Some block text in `defs` does not parse; start-line entries are skipped. */
  predicate Fails(defs: set<Entry>, parse: string -> JsonOutcome) {
    exists e :: e in defs && e.Block? && parse(e.text).Invalid?
  }

  /** `message` is the error of some block text in `defs`. */
  predicate Explains(defs: set<Entry>, parse: string -> JsonOutcome, message: string) {
    exists e :: e in defs && e.Block? && parse(e.text) == Invalid(message)
  }

  /** A file's report: a keyword is a key exactly when one of its texts fails to parse,
      and its message is the error of one of them. Which one is left open: the source
      keeps the last failure in the iteration order of a set. */
  predicate FileReport(defs: map<string, set<Entry>>, parse: string -> JsonOutcome, report: map<string, string>) {
    (forall kw :: kw in defs && Fails(defs[kw], parse) ==> kw in report) &&
    (forall kw :: kw in report ==> kw in defs && Fails(defs[kw], parse) && Explains(defs[kw], parse, report[kw]))
  }

  /** The reports of all files: every file has one, possibly empty. */
  predicate Report(blocks: map<string, map<string, set<Entry>>>, parse: string -> JsonOutcome,
                   errors: map<string, map<string, string>>) {
    errors.Keys == blocks.Keys &&
    forall f :: f in errors ==> FileReport(blocks[f], parse, errors[f])
  }

  /** The texts of one keyword, in any order; each failure overwrites the one before. */
  method LastFailure(defs: set<Entry>, parse: string -> JsonOutcome, report: map<string, string>, kw: string)
    returns (report': map<string, string>)
    requires kw !in report
    ensures report' - {kw} == report
    ensures kw in report' <==> Fails(defs, parse)
    ensures kw in report' ==> Explains(defs, parse, report'[kw])
  {
    report' := report;
    var todo := defs;
    while todo != {}
      invariant todo <= defs
      invariant report' - {kw} == report
      invariant kw in report' <==> Fails(defs - todo, parse)
      invariant kw in report' ==> Explains(defs - todo, parse, report'[kw])
      decreases |todo|
    {
      var definition :| definition in todo;
      if definition.Block? {
        var outcome := parse(definition.text);
        if outcome.Invalid? {
          report' := report'[kw := outcome.message];
        }
      }
      todo := todo - {definition};
    }
  }

  /** One file: its keywords in any order. */
  method ValidateFile(defs: map<string, set<Entry>>, parse: string -> JsonOutcome) returns (report: map<string, string>)
    ensures FileReport(defs, parse, report)
  {
    report := map[];
    var todo := defs.Keys;
    while todo != {}
      invariant todo <= defs.Keys
      invariant forall kw :: kw in report <==> kw in defs && kw !in todo && Fails(defs[kw], parse)
      invariant forall kw :: kw in report ==> Explains(defs[kw], parse, report[kw])
      decreases |todo|
    {
      var kw :| kw in todo;
      report := LastFailure(defs[kw], parse, report, kw);
      todo := todo - {kw};
    }
  }

  /** Every file, in any order. */
  method ValidateJson(blocks: map<string, map<string, set<Entry>>>, parse: string -> JsonOutcome)
    returns (errors: map<string, map<string, string>>)
    ensures Report(blocks, parse, errors)
  {
    errors := map[];
    var todo := blocks.Keys;
    while todo != {}
      invariant todo <= blocks.Keys
      invariant errors.Keys == blocks.Keys - todo
      invariant forall f :: f in errors ==> FileReport(blocks[f], parse, errors[f])
      decreases |todo|
    {
      var f :| f in todo;
      var report := ValidateFile(blocks[f], parse);
      errors := errors[f := report];
      todo := todo - {f};
    }
  }

  /** A file whose every text parses gets an empty report, and the other way round. */
  lemma EmptyReportIffAllParse(defs: map<string, set<Entry>>, parse: string -> JsonOutcome, report: map<string, string>)
    requires FileReport(defs, parse, report)
    ensures report == map[] <==>
            forall kw, e :: kw in defs && e in defs[kw] && e.Block? ==> parse(e.text) == Parsed
  {
    if report != map[] {
      var kw :| kw in report;
      assert Fails(defs[kw], parse);
    } else {
      forall kw, e | kw in defs && e in defs[kw] && e.Block?
        ensures parse(e.text) == Parsed
      {
        assert kw !in report;
        assert !Fails(defs[kw], parse);
      }
    }
  }

  /** The report is fixed up to the choice among several failing texts of one keyword:
      where every keyword's failing texts share one message, there is one report. */
  lemma ReportUnique(defs: map<string, set<Entry>>, parse: string -> JsonOutcome, r1: map<string, string>, r2: map<string, string>)
    requires FileReport(defs, parse, r1) && FileReport(defs, parse, r2)
    requires forall kw, m1, m2 :: kw in defs && Explains(defs[kw], parse, m1) && Explains(defs[kw], parse, m2) ==> m1 == m2
    ensures r1 == r2
  {
    assert r1.Keys == r2.Keys;
    forall kw | kw in r1
      ensures r1[kw] == r2[kw]
    {
      assert Explains(defs[kw], parse, r1[kw]) && Explains(defs[kw], parse, r2[kw]);
    }
  }
}
