/**
 * The line-join loop of `main` in linebreak_remover.py: physical lines are appended, with
 * their line feeds turned into spaces, to a buffer `line_out`; the buffer is written out,
 * minus its last character and plus a line feed, whenever the quote state closes.
 */
module LineJoin {
  import opened QuoteParity

  /** `s.replace('\n', ' ')`: every line feed of `s` becomes a space. */
  function ReplaceNewlines(s: string): (r: string)
    ensures |r| == |s| && '\n' !in r
    ensures forall i :: 0 <= i < |s| ==> r[i] == (if s[i] == '\n' then ' ' else s[i])
  {
    if s == [] then [] else ReplaceNewlines(s[..|s| - 1]) + [if s[|s| - 1] == '\n' then ' ' else s[|s| - 1]]
  }

  /** Replacing line feeds touches no quote. */
  lemma {:induction false} ReplaceKeepsQuotes(s: string)
    ensures QuoteCount(ReplaceNewlines(s)) == QuoteCount(s)
  {
    if s != [] {
      var init, c := s[..|s| - 1], s[|s| - 1];
      assert s == init + [c];
      assert multiset(s) == multiset(init) + multiset([c]);
      var r := ReplaceNewlines(s);
      assert r == ReplaceNewlines(init) + [r[|s| - 1]];
      assert multiset(r) == multiset(ReplaceNewlines(init)) + multiset([r[|s| - 1]]);
      ReplaceKeepsQuotes(init);
    }
  }

  /** Python's `s[:-1]`: all but the last character, and the empty string for the empty string. */
  function DropLast(s: string): (r: string)
    ensures |s| > 0 ==> r + [s[|s| - 1]] == s
    ensures |s| == 0 ==> r == []
  {
    if |s| == 0 then [] else s[..|s| - 1]
  }

  /** What one write puts into the output file: f'{line_out[:-1]}\n'. */
  function Emit(lineOut: string): string {
    DropLast(lineOut) + "\n"
  }

  /**
   * The loop's state between two physical lines: `is_line_closed`, `line_out`, and every
   * buffer that has been written so far, as it stood just before its write.
   */
  datatype JoinState = JoinState(closed: bool, lineOut: string, flushed: seq<string>)

  /** `is_line_closed = True`, `line_out = ''`, nothing written. */
  const Initial := JoinState(true, "", [])

  /** One iteration of the `for line in file_in` loop. */
  function Step(st: JoinState, line: string): JoinState {
    var lineOut := st.lineOut + ReplaceNewlines(line);
    if st.closed then
      if QuotesOpen(line) then JoinState(false, lineOut, st.flushed)
      else JoinState(true, "", st.flushed + [lineOut])
    else
      if QuotesOpen(line) then JoinState(true, "", st.flushed + [lineOut])
      else JoinState(false, lineOut, st.flushed)
  }

  /** The state after the loop has consumed `lines` in order. */
  function Fold(lines: seq<string>): JoinState {
    if lines == [] then Initial else Step(Fold(lines[..|lines| - 1]), lines[|lines| - 1])
  }

  /** The strings written to the output file for the flushed buffers `rs`, in order. */
  function Emitted(rs: seq<string>): (out: seq<string>)
    ensures |out| == |rs|
    ensures forall k :: 0 <= k < |rs| ==> out[k] == DropLast(rs[k]) + "\n"
  {
    if rs == [] then [] else Emitted(rs[..|rs| - 1]) + [Emit(rs[|rs| - 1])]
  }

  /** The written output of a run over `lines`. */
  function Written(lines: seq<string>): seq<string> {
    Emitted(Fold(lines).flushed)
  }

  /** The concatenation of `ss`. */
  function Concat(ss: seq<string>): string {
    if ss == [] then "" else Concat(ss[..|ss| - 1]) + ss[|ss| - 1]
  }

  /** All input lines, line feeds replaced by spaces, one after the other. */
  function Stream(lines: seq<string>): string {
    if lines == [] then "" else Stream(lines[..|lines| - 1]) + ReplaceNewlines(lines[|lines| - 1])
  }

  /** Replacing line feeds keeps the parity of a line. */
  lemma ReplaceKeepsParity(s: string)
    ensures QuotesOpen(ReplaceNewlines(s)) == QuotesOpen(s)
  {
    ReplaceKeepsQuotes(s);
    QuotesOpenIffOddCount(s);
    QuotesOpenIffOddCount(ReplaceNewlines(s));
  }

  /** One step flips the state exactly when the line is broken, and adds the line's parity to the buffer's. */
  lemma StepParity(st: JoinState, line: string)
    ensures QuotesOpen(st.lineOut + ReplaceNewlines(line)) == (QuotesOpen(st.lineOut) != QuotesOpen(line))
    ensures Step(st, line).closed == (st.closed != QuotesOpen(line))
  {
    QuotesOpenConcat(st.lineOut, ReplaceNewlines(line));
    ReplaceKeepsParity(line);
  }

  /**
   * The loop invariant, in terms of the XOR fold: a closed state has an empty buffer, an
   * open one a buffer whose quotes are open, and every buffer that was written was closed.
   */
  lemma {:induction false} StateParity(lines: seq<string>)
    ensures Fold(lines).closed ==> Fold(lines).lineOut == ""
    ensures !Fold(lines).closed ==> QuotesOpen(Fold(lines).lineOut)
    ensures forall k :: 0 <= k < |Fold(lines).flushed| ==> !QuotesOpen(Fold(lines).flushed[k])
  {
    if lines != [] {
      var init, line := lines[..|lines| - 1], lines[|lines| - 1];
      StateParity(init);
      StepParity(Fold(init), line);
    }
  }

  /**
   * The loop invariant in counts: a closed state has an empty buffer, an open one a buffer
   * with an odd number of quotes, and every buffer that was written had an even number.
   */
  lemma StateInvariant(lines: seq<string>)
    ensures Fold(lines).closed ==> Fold(lines).lineOut == ""
    ensures !Fold(lines).closed ==> QuoteCount(Fold(lines).lineOut) % 2 == 1
    ensures forall k :: 0 <= k < |Fold(lines).flushed| ==> QuoteCount(Fold(lines).flushed[k]) % 2 == 0
  {
    StateParity(lines);
    var st := Fold(lines);
    QuotesOpenIffOddCount(st.lineOut);
    forall k | 0 <= k < |st.flushed|
      ensures QuoteCount(st.flushed[k]) % 2 == 0
    {
      QuotesOpenIffOddCount(st.flushed[k]);
    }
  }

  /** The state is closed exactly when the quotes of all input so far are closed. */
  lemma {:induction false} ClosedIffStreamClosed(lines: seq<string>)
    ensures Fold(lines).closed == !QuotesOpen(Stream(lines))
  {
    if lines != [] {
      var init, line := lines[..|lines| - 1], lines[|lines| - 1];
      ClosedIffStreamClosed(init);
      StepParity(Fold(init), line);
      QuotesOpenConcat(Stream(init), ReplaceNewlines(line));
      ReplaceKeepsParity(line);
    }
  }

  /** The engine's state is closed exactly when the input seen so far holds an even number of quotes. */
  lemma ClosedIffEvenQuotes(lines: seq<string>)
    ensures Fold(lines).closed <==> QuoteCount(Stream(lines)) % 2 == 0
  {
    ClosedIffStreamClosed(lines);
    QuotesOpenIffOddCount(Stream(lines));
  }

  lemma ConcatAppend(ss: seq<string>, s: string)
    ensures Concat(ss + [s]) == Concat(ss) + s
  {
    assert (ss + [s])[..|ss|] == ss;
  }

  /**
   * Nothing is lost or reordered: the written buffers, each including the character its
   * write trims, followed by the unwritten buffer, spell out the whole input.
   */
  lemma {:induction false} NothingLost(lines: seq<string>)
    ensures Concat(Fold(lines).flushed) + Fold(lines).lineOut == Stream(lines)
  {
    if lines != [] {
      var init, line := lines[..|lines| - 1], lines[|lines| - 1];
      NothingLost(init);
      var st := Fold(init);
      var lineOut := st.lineOut + ReplaceNewlines(line);
      ConcatAppend(st.flushed, lineOut);
    }
  }

  /** At the end of input an open state holds a non-empty buffer that is never written. */
  lemma OpenTailNotWritten(lines: seq<string>)
    requires !Fold(lines).closed
    ensures Fold(lines).lineOut != ""
    ensures |Concat(Fold(lines).flushed)| < |Stream(lines)|
  {
    StateInvariant(lines);
    NothingLost(lines);
  }

  /** A physical line as a text file yields it: a body without line feeds, then one line feed. */
  predicate IsTerminated(line: string) {
    |line| > 0 && line[|line| - 1] == '\n' && '\n' !in line[..|line| - 1]
  }

  lemma EmitTerminated(line: string)
    requires IsTerminated(line)
    ensures Emit(ReplaceNewlines(line)) == line
  {
    var body := line[..|line| - 1];
    assert ReplaceNewlines(line) == body + " ";
    assert line == body + "\n";
  }

  /** A non-empty sequence is its front followed by its last element. */
  lemma SplitLast<T>(s: seq<T>)
    requires s != []
    ensures s == s[..|s| - 1] + [s[|s| - 1]]
  {
  }

  lemma EmittedAppend(rs: seq<string>, r: string)
    ensures Emitted(rs + [r]) == Emitted(rs) + [Emit(r)]
  {
    assert (rs + [r])[..|rs|] == rs;
  }

  /** Every line is terminated and leaves no quote open; recursive, for induction from the back. */
  predicate AllClosedTerminated(lines: seq<string>) {
    lines == [] ||
    (AllClosedTerminated(lines[..|lines| - 1]) &&
     IsTerminated(lines[|lines| - 1]) && !QuotesOpen(lines[|lines| - 1]))
  }

  lemma {:induction false} AllClosedTerminatedFromCounts(lines: seq<string>)
    requires forall k :: 0 <= k < |lines| ==> IsTerminated(lines[k]) && QuoteCount(lines[k]) % 2 == 0
    ensures AllClosedTerminated(lines)
  {
    if lines != [] {
      var init := lines[..|lines| - 1];
      assert forall k :: 0 <= k < |init| ==> init[k] == lines[k];
      AllClosedTerminatedFromCounts(init);
      QuotesOpenIffOddCount(lines[|lines| - 1]);
    }
  }

  /** The inductive core of WellFormedUnchanged. */
  lemma {:induction false} ClosedLinesUnchanged(lines: seq<string>)
    requires AllClosedTerminated(lines)
    ensures Written(lines) == lines
    ensures Fold(lines).closed && Fold(lines).lineOut == ""
  {
    if lines != [] {
      var init, line := lines[..|lines| - 1], lines[|lines| - 1];
      ClosedLinesUnchanged(init);
      var st := Fold(init);
      assert Fold(lines) == JoinState(true, "", st.flushed + [ReplaceNewlines(line)]) by {
        assert st.lineOut + ReplaceNewlines(line) == ReplaceNewlines(line);
      }
      calc {
        Written(lines);
        Emitted(st.flushed + [ReplaceNewlines(line)]);
        { EmittedAppend(st.flushed, ReplaceNewlines(line)); }
        Emitted(st.flushed) + [Emit(ReplaceNewlines(line))];
        { EmitTerminated(line); }
        init + [line];
        { SplitLast(lines); }
        lines;
      }
    }
  }

  /**
   * On a well-formed file, where every line is terminated and holds an even number of
   * quotes, the output is the input, one write per line, and the run ends closed.
   */
  lemma WellFormedUnchanged(lines: seq<string>)
    requires forall k :: 0 <= k < |lines| ==> IsTerminated(lines[k]) && QuoteCount(lines[k]) % 2 == 0
    ensures Written(lines) == lines
    ensures Fold(lines).closed && Fold(lines).lineOut == ""
  {
    AllClosedTerminatedFromCounts(lines);
    ClosedLinesUnchanged(lines);
  }

  /**
   * The trim `[:-1]` removes one character even from a closing last line that has no line
   * feed, so its last real character is lost.
   */
  lemma UnterminatedLastLineLosesChar(init: seq<string>, last: string)
    requires Fold(init).closed && QuoteCount(last) % 2 == 0
    requires last != "" && '\n' !in last
    ensures Written(init + [last]) == Written(init) + [last[..|last| - 1] + "\n"]
  {
    StateParity(init);
    QuotesOpenIffOddCount(last);
    assert !QuotesOpen(last);
    var lines := init + [last];
    assert lines[..|init|] == init;
    assert ReplaceNewlines(last) == last;
    var st := Fold(init);
    assert st.lineOut + ReplaceNewlines(last) == last;
    assert Fold(lines) == Step(st, last);
    assert Fold(lines).flushed == st.flushed + [last];
    assert (st.flushed + [last])[..|st.flushed|] == st.flushed;
  }

  /**
   * The loop of `main`, lines 78-103: the sink `written` receives every record as it
   * closes, and the final state is returned for the status decision.
   */
  method JoinLines(lines: seq<string>) returns (written: seq<string>, isLineClosed: bool, lineOut: string)
    ensures written == Written(lines)
    ensures isLineClosed == Fold(lines).closed && lineOut == Fold(lines).lineOut
    ensures isLineClosed ==> lineOut == ""
    ensures !isLineClosed ==> QuoteCount(lineOut) % 2 == 1
  {
    isLineClosed := true;
    lineOut := "";
    written := [];
    ghost var flushed: seq<string> := [];
    for i := 0 to |lines|
      invariant Fold(lines[..i]) == JoinState(isLineClosed, lineOut, flushed)
      invariant written == Emitted(flushed)
    {
      var line := lines[i];
      assert lines[..i + 1][..i] == lines[..i];
      lineOut := lineOut + ReplaceNewlines(line);
      var broken := IsLineBroken(line);
      if isLineClosed {
        if broken {
          isLineClosed := false;
        } else {
          assert (flushed + [lineOut])[..|flushed|] == flushed;
          written := written + [Emit(lineOut)];
          flushed := flushed + [lineOut];
          lineOut := "";
        }
      } else {
        if broken {
          assert (flushed + [lineOut])[..|flushed|] == flushed;
          written := written + [Emit(lineOut)];
          flushed := flushed + [lineOut];
          isLineClosed := true;
          lineOut := "";
        }
      }
    }
    assert lines[..|lines|] == lines;
    StateInvariant(lines);
  }
}
