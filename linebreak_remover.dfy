/**
 * `main` of linebreak_remover.py without argument parsing and logging: validate the `-f`
 * path, derive the output path, join the lines of the input file and pick the status.
 */
module LinebreakRemover {
  import opened Wrappers
  import opened QuoteParity
  import opened LineJoin
  import opened FilePaths

  /** Return values of `main`. */
  const StatusOk := 0
  const StatusQuoteLeftOpen := 1
  const StatusNotCsv := 2
  const StatusMissingInput := 3
  const StatusMiscError := 4

  /** Lines 105-112: the state at end of input decides between 0 and 1. */
  function FinalStatus(isLineClosed: bool): int {
    if isLineClosed then StatusOk else StatusQuoteLeftOpen
  }

  /**
   * One call of `main`. `arg` is `_args.f`. `source` is the input file's lines as the file
   * iterator yields them, or None when opening the input or the output file raises, which
   * the catch-all handler turns into 4. `written` is what the output file receives.
   */
  method Run(arg: Option<string>, source: Option<seq<string>>)
    returns (status: int, pathOut: Option<string>, written: seq<string>)
    ensures status == StatusMissingInput <==> arg == None || arg == Some("")
    ensures status == StatusNotCsv <==> arg.Some? && arg.value != "" && LastFour(arg.value) != ".csv"
    ensures status == StatusMissingInput || status == StatusNotCsv ==> pathOut == None && written == []
    ensures status != StatusMissingInput && status != StatusNotCsv ==>
              |Split(arg.value)| >= 2 && pathOut == Some(OutputPath(arg.value))
    ensures status == StatusMiscError <==> CheckPath(arg).Accepted? && source == None
    ensures status == StatusMiscError ==> written == []
    ensures CheckPath(arg).Accepted? && source.Some? ==>
              written == Written(source.value) &&
              (status == StatusOk <==> Fold(source.value).closed) &&
              (status == StatusQuoteLeftOpen <==> !Fold(source.value).closed)
    ensures status == StatusQuoteLeftOpen ==>
              source.Some? && |Concat(Fold(source.value).flushed)| < |Stream(source.value)|
  {
    match CheckPath(arg)
    case MissingInput =>
      status, pathOut, written := StatusMissingInput, None, [];
    case NotCsv =>
      status, pathOut, written := StatusNotCsv, None, [];
    case Accepted(out) =>
      pathOut := Some(out);
      if source == None {
        status, written := StatusMiscError, [];
      } else {
        var isLineClosed, lineOut;
        written, isLineClosed, lineOut := JoinLines(source.value);
        status := FinalStatus(isLineClosed);
        if !isLineClosed {
          OpenTailNotWritten(source.value);
        }
      }
  }

  lemma OneQuoteOpen(a: string, b: string)
    requires '"' !in a && '"' !in b
    ensures QuotesOpen(a + "\"" + b)
  {
    NoQuoteNotBroken(a);
    NoQuoteNotBroken(b);
    assert QuotesOpen("\"");
    QuotesOpenConcat(a, "\"");
    QuotesOpenConcat(a + "\"", b);
  }

  lemma ReplaceTerminator(body: string)
    requires '\n' !in body
    ensures ReplaceNewlines(body + "\n") == body + " "
  {
  }

  /** Two broken lines in a row make one record. */
  lemma TwoBrokenLinesJoin(l1: string, l2: string)
    requires QuotesOpen(l1) && QuotesOpen(l2)
    ensures Fold([l1, l2]) == JoinState(true, "", [ReplaceNewlines(l1) + ReplaceNewlines(l2)])
  {
    assert [l1, l2][..1] == [l1];
    assert [l1][..0] == [];
    assert Fold([l1]) == JoinState(false, ReplaceNewlines(l1), []);
  }

  /** Two terminated broken lines are written as one line, joined by a space. */
  lemma BrokenPairJoined(b1: string, b2: string)
    requires '\n' !in b1 && '\n' !in b2
    requires QuotesOpen(b1 + "\n") && QuotesOpen(b2 + "\n")
    ensures Written([b1 + "\n", b2 + "\n"]) == [b1 + " " + b2 + "\n"]
    ensures Fold([b1 + "\n", b2 + "\n"]).closed
  {
    ReplaceTerminator(b1);
    ReplaceTerminator(b2);
    TwoBrokenLinesJoin(b1 + "\n", b2 + "\n");
    var record := b1 + " " + (b2 + " ");
    assert DropLast(record) == b1 + " " + b2;
  }

  /**
   * The record `foo,"bar,baz qux",1,2` split after `baz` by a line break inside its quotes
   * is written back as one line, and the run ends closed.
   */
  lemma ScenarioSplitRecord(b1: string, b2: string)
    requires b1 == "foo,\"bar,baz" && b2 == "qux\",1,2"
    ensures Written([b1 + "\n", b2 + "\n"]) == [b1 + " " + b2 + "\n"]
    ensures Fold([b1 + "\n", b2 + "\n"]).closed
  {
    OneQuoteOpen("foo,", "bar,baz\n");
    OneQuoteOpen("qux", ",1,2\n");
    assert b1 + "\n" == "foo," + "\"" + "bar,baz\n";
    assert b2 + "\n" == "qux" + "\"" + ",1,2\n";
    BrokenPairJoined(b1, b2);
  }

  /** A line whose quote never closes is not written, and the run ends open. */
  lemma ScenarioNeverCloses()
    ensures Written(["\"never closes"]) == []
    ensures !Fold(["\"never closes"]).closed
  {
    OneQuoteOpen("", "never closes");
    assert "" + "\"" + "never closes" == "\"never closes";
    assert ["\"never closes"][..0] == [];
  }
}
