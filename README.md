# csv_linebreak_remover, modelled in Dafny

`linebreak_remover.py` repairs CSV files whose quoted fields contain line breaks. It reads
the input file one physical line at a time. A line with an odd number of `"` characters
opens (or closes) a quoted field. Lines are collected, with their line feeds turned into
spaces, until the quotes close again. The collected text is then written as one line, minus
its last character and plus a line feed. `main` returns 0 when every quote closed by the
end of the file, 1 when the last one stayed open, 2 for a path that does not end in `.csv`,
3 for a missing path and 4 for any other error.

The model has five modules:

- `Wrappers` (`wrappers.dfy`): `Option`.
- `QuoteParity` (`quote_parity.dfy`): `is_line_broken`. The method `IsLineBroken` keeps the
  source's `for` loop and XOR accumulator. It is proved against two things: the fold
  `QuotesOpen`, and the multiset count `QuoteCount`.
- `LineJoin` (`line_join.dfy`): the join loop of `main`. The method `JoinLines` keeps the
  loop, `is_line_closed`, `line_out` and the output sink. It is proved against a pure
  transition `Step` and its left fold `Fold`. The state `JoinState` also records each
  buffer as it stood just before its write (`flushed`), so the character removed by
  `[:-1]` stays visible to the lemmas.
- `FilePaths` (`file_paths.dfy`): the checks on the `-f` path. `LastFour` is Python's
  `[-4:]`, `Split` is `split('.')` and `OutputPath` is line 73's expression.
- `LinebreakRemover` (`linebreak_remover.dfy`): `Run`, which is `main` without argument
  parsing and logging, plus the end-to-end scenarios.

The input file is a sequence of strings, one per line, as Python's text-file iterator
yields them. The output file is the sequence of strings passed to `write`. `Run` also takes
an `Option`: `None` means opening the input or the output file raised. The catch-all
handler turns that into status 4.

Two behaviours of the code are reproduced as written:

- The trim `[:-1]` always removes one character. When the last line of a file has no line
  feed, that character is a real one: `UnterminatedLastLineLosesChar`.
- The output path keeps only the last two dot-separated pieces of the input path.
  `./data.csv` becomes `/data_out.csv`: `OutputPathKeepsLastTwoPieces` and
  `OutputPathDotSlash`. The tool's description speaks of inserting `_out` before the final
  extension. The two agree only for paths with a single dot (`OutputPathOneDot`). The model
  follows the code.

The tool's description also says each physical line has its terminator stripped before
processing. The code instead replaces every `'\n'` with a space and removes one final
character at write time. The model follows the code.

## Model

| member | source | states |
|---|---|---|
| `QuoteParity.IsLineBroken` | linebreak_remover.py:29-49 | the loop's result is true iff the line holds an odd number of `"`, and equals the XOR fold over its characters |
| `QuoteParity.QuotesOpenIffOddCount` | linebreak_remover.py:45-49 | the XOR accumulator, seeded false and flipped at each `"`, ends true exactly when the count of `"` is odd |
| `QuoteParity.QuotesOpenConcat` | linebreak_remover.py:45-48 | parity composes over concatenation: broken(a + b) is broken(a) XOR broken(b) |
| `QuoteParity.NoQuoteNotBroken` | linebreak_remover.py:45-49 | a line without any `"`, the empty line included, is not broken |
| `QuoteParity.TestNoQuote` | test/test_is_line_broken.py:8-11 | the quote-free test sentence is not broken |
| `QuoteParity.TestOneQuote` | test/test_is_line_broken.py:13-16 | the test sentence with one quote is broken |
| `QuoteParity.TestTwoQuotes` | test/test_is_line_broken.py:18-21 | the test sentence with two quotes is not broken |
| `LineJoin.ReplaceNewlines` | linebreak_remover.py:82 | `replace('\n', ' ')` keeps the length, maps each line feed to a space and every other character to itself, and leaves no line feed |
| `LineJoin.ReplaceKeepsQuotes` | linebreak_remover.py:82 | replacing line feeds does not change the number of quotes appended to the buffer |
| `LineJoin.DropLast` | linebreak_remover.py:91 | `s[:-1]`: a non-empty string is the result followed by its last character; the empty string gives the empty string |
| `LineJoin.Emitted` | linebreak_remover.py:91-98 | one write per flushed buffer, in order, each the buffer without its last character followed by `'\n'` |
| `LineJoin.StateParity` | linebreak_remover.py:78-103 | after any number of lines: closed implies an empty buffer, open implies the buffer's quotes are open, and every flushed buffer's quotes were closed |
| `LineJoin.StateInvariant` | linebreak_remover.py:78-103 | the loop invariant in counts: closed implies `line_out == ''`, open implies an odd number of `"` in `line_out`, and every written buffer held an even number |
| `LineJoin.ClosedIffStreamClosed` | linebreak_remover.py:78-103 | the state after a prefix of the input is closed exactly when the quotes of that whole prefix are closed |
| `LineJoin.ClosedIffEvenQuotes` | linebreak_remover.py:78-103 | the state after a prefix is closed iff that prefix holds an even total number of `"` |
| `LineJoin.NothingLost` | linebreak_remover.py:82-100 | the flushed buffers (each with the character its write trims), followed by the unwritten buffer, concatenate to all input lines with line feeds replaced: nothing lost or reordered |
| `LineJoin.OpenTailNotWritten` | linebreak_remover.py:80-112 | when the input ends open, the trailing buffer is non-empty and the written buffers cover strictly less than the input |
| `LineJoin.WellFormedUnchanged` | linebreak_remover.py:83-92 | on a file whose lines all end in `'\n'` and each hold an even number of quotes, the output equals the input, one write per line, and the run ends closed |
| `LineJoin.UnterminatedLastLineLosesChar` | linebreak_remover.py:82-91 | a closed, quote-balanced last line without `'\n'` is written with its last real character dropped |
| `LineJoin.JoinLines` | linebreak_remover.py:78-103 | the loop writes exactly the fold's output and ends in the fold's state; closed means an empty buffer, open means a buffer with an odd number of quotes |
| `FilePaths.LastFour` | linebreak_remover.py:68 | `p[-4:]`: the last four characters, or all of a shorter `p`, and always a suffix of `p` |
| `FilePaths.CsvCheckIsSuffix` | linebreak_remover.py:68 | the extension check passes iff the path is some stem followed by `.csv` |
| `FilePaths.SplitLength` | linebreak_remover.py:73 | `split('.')` yields one piece more than the path has dots |
| `FilePaths.SplitPiecesHaveNoDot` | linebreak_remover.py:73 | no piece of `split('.')` contains a dot |
| `FilePaths.JoinSplit` | linebreak_remover.py:73 | joining the pieces of `split('.')` with dots gives back the path |
| `FilePaths.SplitAtDot` | linebreak_remover.py:73 | splitting `a + "." + b` gives the pieces of `a` followed by those of `b` |
| `FilePaths.OutputPathOneDot` | linebreak_remover.py:72-73 | for a dot-free stem, the path `stem.csv` has two pieces and gives `stem_out.csv` |
| `FilePaths.OutputPathKeepsLastTwoPieces` | linebreak_remover.py:73 | for `dir.stem.csv` with a dot-free stem, the output path is `stem_out.csv`: everything before the second-to-last dot is dropped |
| `FilePaths.OutputPathExample` | linebreak_remover.py:73 | `data.csv` gives `data_out.csv` |
| `FilePaths.OutputPathDotSlash` | linebreak_remover.py:73 | `./data.csv` gives `/data_out.csv` |
| `FilePaths.CheckPath` | linebreak_remover.py:65-73 | a falsy path (absent or empty) is rejected as missing; otherwise a path whose `[-4:]` is not `.csv` is rejected as not CSV; otherwise it splits into at least two pieces and the output path is line 73's expression |
| `FilePaths.CheckPathExamples` | linebreak_remover.py:65-73 | no path is missing input, `report.txt` is not CSV, `data.csv` is accepted with `data_out.csv` |
| `LinebreakRemover.Run` | linebreak_remover.py:64-125 | status 3 iff the path is falsy, 2 iff it lacks `.csv`, both before any output path or write; 4 iff the files cannot be opened; otherwise the output is the join loop's, status 0 iff the state ends closed, 1 iff it ends open, and then the trailing buffer is never written |
| `LinebreakRemover.TwoBrokenLinesJoin` | linebreak_remover.py:83-100 | two broken lines in a row leave the state closed with one flushed buffer: both lines, line feeds replaced |
| `LinebreakRemover.BrokenPairJoined` | linebreak_remover.py:82-100 | two terminated broken lines are written as one line, their bodies joined by a space |
| `LinebreakRemover.ScenarioSplitRecord` | linebreak_remover.py:78-103 | `foo,"bar,baz` and `qux",1,2` on two lines are written as `foo,"bar,baz qux",1,2` and the run ends closed |
| `LinebreakRemover.ScenarioNeverCloses` | linebreak_remover.py:105-112 | a single line `"never closes` writes nothing and leaves the state open (status 1) |

## Left out

- Argument parsing with `argparse` (linebreak_remover.py:15-27). `Run` takes the value of `-f` directly.
- The verbosity table, `logging.basicConfig` and every `logging` call. They only observe.
- Opening, reading, writing and closing files, UTF-8 decoding and universal-newline translation. The input is a sequence of line strings and the output the sequence of written strings. The model accepts any strings as lines, including empty ones and ones with inner line feeds, which a file iterator never yields.
- LinebreakRemover.Run: models the catch-all `except Exception` (status 4) only for a failure to open the files, with nothing written. A failure partway through the file, after some lines have been written, is not modelled.
- The source calls `is_line_broken(line)` separately in each branch of the loop; `JoinLines` calls `IsLineBroken` once per line. The function is pure, so the result is the same.
