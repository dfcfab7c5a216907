/**
 * The quote-parity predicate `is_line_broken` of linebreak_remover.py: does a line hold
 * an odd number of double-quote characters, i.e. does it leave a quoted field open?
 */
module QuoteParity {

  /** The number of `"` characters in `s`. */
  function QuoteCount(s: string): nat {
    multiset(s)['"']
  }

  /** The XOR accumulator `quotes_open` after scanning `s` from left to right. */
  function QuotesOpen(s: string): bool {
    if s == [] then false else QuotesOpen(s[..|s| - 1]) != (s[|s| - 1] == '"')
  }

  /** The fold flips once per quote, so it ends true exactly when the count is odd. */
  lemma {:induction false} QuotesOpenIffOddCount(s: string)
    ensures QuotesOpen(s) <==> QuoteCount(s) % 2 == 1
  {
    if s != [] {
      var init, c := s[..|s| - 1], s[|s| - 1];
      assert s == init + [c];
      assert multiset(s) == multiset(init) + multiset([c]);
      QuotesOpenIffOddCount(init);
    }
  }

  /** `is_line_broken`: a `for` loop that XORs the accumulator with "this char is a quote". */
  method IsLineBroken(line: string) returns (quotesOpen: bool)
    ensures quotesOpen <==> QuoteCount(line) % 2 == 1
    ensures quotesOpen == QuotesOpen(line)
  {
    quotesOpen := false;
    for i := 0 to |line|
      invariant quotesOpen == QuotesOpen(line[..i])
    {
      var isQuote := line[i] == '"';
      assert line[..i + 1][..i] == line[..i];
      quotesOpen := quotesOpen != isQuote;
    }
    assert line[..|line|] == line;
    QuotesOpenIffOddCount(line);
  }

  /** Parity composes over concatenation as an exclusive or. */
  lemma QuotesOpenConcat(a: string, b: string)
    ensures QuotesOpen(a + b) == (QuotesOpen(a) != QuotesOpen(b))
  {
    QuotesOpenIffOddCount(a);
    QuotesOpenIffOddCount(b);
    QuotesOpenIffOddCount(a + b);
    assert multiset(a + b) == multiset(a) + multiset(b);
  }

  /** Quote counts add up over concatenation. */
  lemma QuoteCountConcat(a: string, b: string)
    ensures QuoteCount(a + b) == QuoteCount(a) + QuoteCount(b)
  {
    assert multiset(a + b) == multiset(a) + multiset(b);
  }

  /** A line without any quote (the empty line among them) is never broken. */
  lemma NoQuoteNotBroken(s: string)
    requires '"' !in s
    ensures !QuotesOpen(s)
  {
    QuotesOpenIffOddCount(s);
    assert '"' !in multiset(s);
  }

  /** test/test_is_line_broken.py, first case: a line without quotes. */
  lemma TestNoQuote()
    ensures !QuotesOpen("El perro de san roque no tiene rabo")
  {
    NoQuoteNotBroken("El perro de san roque no tiene rabo");
  }

  /** test/test_is_line_broken.py, second case: one quote opens the line. */
  lemma TestOneQuote()
    ensures QuotesOpen("El perro de \"san roque no tiene rabo")
  {
    var head, tail := "El perro de \"san roque", " no tiene rabo";
    OpenPrefix();
    NoQuoteNotBroken(tail);
    QuotesOpenConcat(head, tail);
    assert "El perro de \"san roque no tiene rabo" == head + tail;
  }

  /** test/test_is_line_broken.py, third case: a second quote closes it again. */
  lemma TestTwoQuotes()
    ensures !QuotesOpen("El perro de \"san roque\" no tiene rabo")
  {
    var head, tail := "El perro de \"san roque", " no tiene rabo";
    OpenPrefix();
    NoQuoteNotBroken(tail);
    QuotesOpenConcat(head, "\"");
    QuotesOpenConcat(head + "\"", tail);
    assert QuotesOpen("\"");
    assert "El perro de \"san roque\" no tiene rabo" == head + "\"" + tail;
  }

  /** The common prefix of the two quoted test lines holds one quote. */
  lemma OpenPrefix()
    ensures QuotesOpen("El perro de \"san roque")
  {
    var head, tail := "El perro de ", "san roque";
    NoQuoteNotBroken(head);
    NoQuoteNotBroken(tail);
    QuotesOpenConcat(head, "\"");
    QuotesOpenConcat(head + "\"", tail);
    assert QuotesOpen("\"");
    assert "El perro de \"san roque" == head + "\"" + tail;
  }
}
