/**
 * The checks `main` makes on the `-f` path before any file is opened, and the output path
 * it derives: `split('.')[-2] + "_out." + split('.')[-1]`.
 */
module FilePaths {
  import opened Wrappers

  /** Python's `p[-4:]`: the last four characters, or all of `p` when it is shorter. */
  function LastFour(p: string): (r: string)
    ensures |r| == if |p| < 4 then |p| else 4
    ensures p == p[..|p| - |r|] + r
  {
    if |p| < 4 then p else p[|p| - 4..]
  }

  /** The extension check passes exactly for paths that end in `.csv` (case-sensitive). */
  lemma CsvCheckIsSuffix(p: string)
    ensures LastFour(p) == ".csv" <==> exists stem :: p == stem + ".csv"
  {
    if LastFour(p) == ".csv" {
      assert p == p[..|p| - 4] + ".csv";
    }
    if exists stem :: p == stem + ".csv" {
      var stem :| p == stem + ".csv";
      assert p[|p| - 4..] == ".csv";
    }
  }

  /** The number of `.` characters in `s`. */
  function DotCount(s: string): nat {
    multiset(s)['.']
  }

  /** Python's `s.split('.')`: the pieces between the dots, at least one, maybe empty. */
  function Split(s: string): (parts: seq<string>)
    ensures |parts| >= 1
  {
    if s == [] then [""]
    else
      var rest := Split(s[1..]);
      if s[0] == '.' then [""] + rest
      else [[s[0]] + rest[0]] + rest[1..]
  }

  /** Python's `'.'.join(parts)`, the inverse of Split. */
  function JoinDots(parts: seq<string>): string
    requires |parts| >= 1
  {
    if |parts| == 1 then parts[0] else parts[0] + "." + JoinDots(parts[1..])
  }

  /** A split has one piece more than there are dots. */
  lemma {:induction false} SplitLength(s: string)
    ensures |Split(s)| == DotCount(s) + 1
  {
    if s != [] {
      assert s == [s[0]] + s[1..];
      assert multiset(s) == multiset([s[0]]) + multiset(s[1..]);
      SplitLength(s[1..]);
    }
  }

  /** No piece of a split holds a dot. */
  lemma {:induction false} SplitPiecesHaveNoDot(s: string, k: nat)
    requires k < |Split(s)|
    ensures '.' !in Split(s)[k]
  {
    if s != [] {
      var rest := Split(s[1..]);
      if s[0] == '.' {
        if k > 0 { SplitPiecesHaveNoDot(s[1..], k - 1); }
      } else {
        if k == 0 {
          SplitPiecesHaveNoDot(s[1..], 0);
          assert Split(s)[0] == [s[0]] + rest[0];
        } else {
          SplitPiecesHaveNoDot(s[1..], k);
          assert Split(s)[k] == rest[k];
        }
      }
    }
  }

  /** Joining the pieces of a split with dots gives back the original string. */
  lemma {:induction false} JoinSplit(s: string)
    ensures JoinDots(Split(s)) == s
  {
    if s != [] {
      var rest := Split(s[1..]);
      JoinSplit(s[1..]);
      var parts := Split(s);
      if s[0] == '.' {
        assert parts == [""] + rest;
        assert parts[1..] == rest;
        assert JoinDots(parts) == "" + "." + JoinDots(rest);
      } else {
        assert parts == [[s[0]] + rest[0]] + rest[1..];
        if |rest| == 1 {
          assert JoinDots(parts) == [s[0]] + rest[0];
        } else {
          assert parts[1..] == rest[1..];
          assert JoinDots(rest) == rest[0] + "." + JoinDots(rest[1..]);
          assert JoinDots(parts) == ([s[0]] + rest[0]) + "." + JoinDots(rest[1..]);
        }
        assert s == [s[0]] + s[1..];
      }
    }
  }

  /** One unfolding of Split, at a character put in front. */
  lemma SplitCons(c: char, s: string)
    ensures Split([c] + s) ==
      if c == '.' then [""] + Split(s) else [[c] + Split(s)[0]] + Split(s)[1..]
  {
    assert ([c] + s)[1..] == s;
  }

  /** Splitting at a dot splits the pieces on either side. */
  lemma {:induction false} SplitAtDot(a: string, b: string)
    ensures Split(a + "." + b) == Split(a) + Split(b)
  {
    if a == [] {
      assert a + "." + b == ['.'] + b;
      SplitCons('.', b);
    } else {
      var c, a' := a[0], a[1..];
      assert a == [c] + a';
      assert a + "." + b == [c] + (a' + "." + b);
      SplitAtDot(a', b);
      SplitConsAppend(c, Split(a'), Split(b), a' + "." + b);
      SplitCons(c, a');
    }
  }

  /** The step of SplitAtDot: a character put in front of the pieces of `ra + rb`. */
  lemma SplitConsAppend(c: char, ra: seq<string>, rb: seq<string>, s: string)
    requires |ra| >= 1 && Split(s) == ra + rb
    ensures Split([c] + s) ==
      (if c == '.' then [""] + ra else [[c] + ra[0]] + ra[1..]) + rb
  {
    SplitCons(c, s);
    if c != '.' {
      FrontOfAppend([c] + ra[0], ra, rb);
    }
  }

  lemma FrontOfAppend(x: string, ra: seq<string>, rb: seq<string>)
    requires |ra| >= 1
    ensures (ra + rb)[0] == ra[0]
    ensures [x] + (ra + rb)[1..] == ([x] + ra[1..]) + rb
  {
    assert (ra + rb)[1..] == ra[1..] + rb;
  }

  /** A string without dots splits into itself alone. */
  lemma {:induction false} SplitNoDot(s: string)
    requires '.' !in s
    ensures Split(s) == [s]
  {
    if s != [] {
      assert s == [s[0]] + s[1..];
      SplitNoDot(s[1..]);
    }
  }

  /** `split('.')[-2] + "_out." + split('.')[-1]`; Python raises unless there are two pieces. */
  function OutputPath(p: string): string
    requires |Split(p)| >= 2
  {
    var parts := Split(p);
    parts[|parts| - 2] + "_out." + parts[|parts| - 1]
  }

  /** A name with one dot, its extension: `_out` goes just before the dot. */
  lemma OutputPathOneDot(stem: string)
    requires '.' !in stem
    ensures |Split(stem + ".csv")| == 2
    ensures OutputPath(stem + ".csv") == stem + "_out.csv"
  {
    SplitCsvName(stem);
  }

  lemma SplitCsvName(stem: string)
    requires '.' !in stem
    ensures Split(stem + ".csv") == [stem, "csv"]
  {
    assert stem + ".csv" == stem + "." + "csv";
    SplitDotCsv(stem);
  }

  lemma SplitDotCsv(stem: string)
    requires '.' !in stem
    ensures Split(stem + "." + "csv") == [stem, "csv"]
  {
    SplitAtDot(stem, "csv");
    SplitNoDot(stem);
    SplitNoDot("csv");
  }

  /**
   * Only the last two dot-separated pieces survive: whatever comes before the second-to-last
   * dot, directories included, is dropped from the output path.
   */
  lemma OutputPathKeepsLastTwoPieces(dir: string, stem: string)
    requires '.' !in stem
    ensures |Split(dir + "." + stem + ".csv")| >= 3
    ensures OutputPath(dir + "." + stem + ".csv") == stem + "_out.csv"
  {
    var p := dir + "." + stem + ".csv";
    assert p == dir + "." + (stem + ".csv");
    SplitAtDot(dir, stem + ".csv");
    SplitCsvName(stem);
    var parts := Split(p);
    assert parts == Split(dir) + [stem, "csv"];
    assert parts[|parts| - 2] == stem && parts[|parts| - 1] == "csv";
  }

  /** `data.csv` gives `data_out.csv`. */
  lemma OutputPathExample()
    ensures OutputPath("data.csv") == "data_out.csv"
  {
    OutputPathOneDot("data");
    assert "data" + ".csv" == "data.csv";
  }

  /** `./data.csv` gives `/data_out.csv`: the leading `.` makes the directory vanish. */
  lemma OutputPathDotSlash()
    ensures OutputPath("./data.csv") == "/data_out.csv"
  {
    var dir, stem := "", "/data";
    OutputPathKeepsLastTwoPieces(dir, stem);
    assert dir + "." + stem + ".csv" == "./data.csv";
    assert stem + "_out.csv" == "/data_out.csv";
  }

  /** The outcome of the checks made before any file is opened. */
  datatype PathCheck = MissingInput | NotCsv | Accepted(pathOut: string)

  /**
   * `if _args.f:` then the `.csv` check, then the output path. Both `None` and the empty
   * string are falsy in Python.
   */
  function CheckPath(arg: Option<string>): (c: PathCheck)
    ensures c == MissingInput <==> arg == None || arg == Some("")
    ensures c == NotCsv <==> arg.Some? && arg.value != "" && LastFour(arg.value) != ".csv"
    ensures c.Accepted? ==> |Split(arg.value)| >= 2 && c.pathOut == OutputPath(arg.value)
  {
    match arg
    case None => MissingInput
    case Some(p) =>
      if p == "" then MissingInput
      else if LastFour(p) != ".csv" then NotCsv
      else
        assert p[|p| - 4] == '.' && p[|p| - 4] in multiset(p);
        SplitLength(p);
        Accepted(OutputPath(p))
  }

  /** No `-f` gives 3, `report.txt` gives 2, and `data.csv` is accepted with `data_out.csv`. */
  lemma CheckPathExamples()
    ensures CheckPath(None) == MissingInput
    ensures CheckPath(Some("report.txt")) == NotCsv
    ensures CheckPath(Some("data.csv")) == Accepted("data_out.csv")
  {
    assert LastFour("report.txt") == ".txt";
    assert LastFour("data.csv") == ".csv";
    OutputPathExample();
  }
}
