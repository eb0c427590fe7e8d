/** Reading back what the writer wrote: with the same delimiter (not a newline), the
    reader recovers every row the writer was given, except that the one-field row
    [""] written without quotes comes out as the blank line, which reads as []. */
module DSVRoundTrip {
  import opened DSVCommon
  import opened DSVReader
  import opened DSVWriter
  import opened Wrappers

  /** A delimiter the round trip works with: never the quote (the constructors see to
      that) and not the row terminator. */
  predicate GoodDelimiter(delim: char)
  {
    delim != Quote && delim != Newline
  }

  /** A row that reads back as itself: every row except [""] written without quotes. */
  predicate Recoverable(row: seq<string>, quoteAll: bool)
  {
    quoteAll || row != [[]]
  }

  /** `x` is found in `input` at position `p`, stated one character at a time so that
      a proof only learns as much of `input` as it unfolds. */
  ghost predicate Matches(input: string, p: nat, x: string)
    decreases |x|
  {
    if x == [] then p <= |input| else p < |input| && input[p] == x[0] && Matches(input, p + 1, x[1..])
  }

  lemma {:induction false} MatchesConcat(input: string, p: nat, x: string, y: string)
    requires Matches(input, p, x + y)
    ensures Matches(input, p, x) && Matches(input, p + |x|, y)
    decreases |x|
  {
    if x == [] {
      assert x + y == y;
    } else {
      assert (x + y)[1..] == x[1..] + y;
      MatchesConcat(input, p + 1, x[1..], y);
      MatchesBound(input, p + 1 + |x[1..]|, y);
    }
  }

  lemma {:induction false} MatchesBound(input: string, p: nat, x: string)
    requires Matches(input, p, x)
    ensures p + |x| <= |input|
    decreases |x|
  {
    if x != [] {
      MatchesBound(input, p + 1, x[1..]);
    }
  }

  /** A string is found where it was put. */
  lemma {:induction false} MatchesInside(pre: string, x: string, post: string)
    ensures Matches(pre + x + post, |pre|, x)
    decreases |x|
  {
    if x != [] {
      assert pre + x + post == (pre + [x[0]]) + x[1..] + post by {
        assert x == [x[0]] + x[1..];
      }
      MatchesInside(pre + [x[0]], x[1..], post);
    }
  }

  /** An unquoted field is read back character by character into the current field. */
  lemma {:induction false} ReadPlain(input: string, p: nat, f: string, delim: char,
                                     row: seq<string>, field: string, seen: bool)
    requires Matches(input, p, f)
    requires !NeedsQuote(f, delim, false)
    ensures p + |f| <= |input|
    ensures ScanRow(input, delim, p, row, field, seen)
            == ScanRow(input, delim, p + |f|, row, field + f, seen || f != [])
    decreases |f|
  {
    if f == [] {
      assert field + f == field;
    } else {
      var c, r := f[0], f[1..];
      assert c in f;
      assert !NeedsQuote(r, delim, false) by {
        forall x | x in r ensures x in f { }
      }
      ReadPlain(input, p + 1, r, delim, row, field + [c], true);
      assert field + [c] + r == field + f by {
        assert f == [c] + r;
      }
    }
  }

  lemma EscapeFront(f: string)
    requires f != []
    ensures Escape(f) == EscapeChar(f[0]) + Escape(f[1..])
    ensures |Escape(f)| == |EscapeChar(f[0])| + |Escape(f[1..])|
  {
    assert f == [f[0]] + f[1..];
    EscapeConcat([f[0]], f[1..]);
    assert [f[0]][..0] == [];
  }

  /** A closing quote at `q` that is not followed by another quote. */
  predicate ClosingQuote(input: string, q: nat)
  {
    q < |input| && input[q] == Quote && (q + 1 < |input| ==> input[q + 1] != Quote)
  }

  /** The inside of a quoted field followed by its closing quote is read back as the
      field, provided what follows the closing quote is not itself a quote. */
  lemma {:induction false} ReadEscaped(input: string, p: nat, f: string, field: string)
    requires Matches(input, p, Escape(f))
    requires ClosingQuote(input, p + |Escape(f)|)
    ensures ScanQuoted(input, p, field) == Span(field + f, p + |Escape(f)| + 1)
    decreases |f|
  {
    if f == [] {
      assert field + f == field;
    } else {
      var n := |EscapeChar(f[0])|;
      EscapedStep(input, p, f);
      ReadEscapedChar(input, p, f[0], field);
      ReadEscaped(input, p + n, f[1..], field + [f[0]]);
      AppendFront(field, f);
    }
  }

  /** A quoted span the input ends inside is still read to the end: an escaped field
      running up to the end of the input, with no closing quote, is read back whole. */
  lemma {:induction false} ReadUnterminated(input: string, p: nat, f: string, field: string)
    requires Matches(input, p, Escape(f))
    requires p + |Escape(f)| == |input|
    ensures ScanQuoted(input, p, field) == Span(field + f, |input|)
    decreases |f|
  {
    if f == [] {
      assert field + f == field;
    } else {
      var n := |EscapeChar(f[0])|;
      EscapeFront(f);
      MatchesConcat(input, p, EscapeChar(f[0]), Escape(f[1..]));
      ReadEscapedChar(input, p, f[0], field);
      ReadUnterminated(input, p + n, f[1..], field + [f[0]]);
      AppendFront(field, f);
    }
  }

  /** A field whose opening quote is never closed ends the row, and the input, with
      that field: its doubled quotes halved and everything else kept, newlines and
      delimiters included. */
  lemma UnterminatedField(input: string, delim: char, p: nat, f: string, row: seq<string>, seen: bool)
    requires p < |input| && input[p] == Quote
    requires Matches(input, p + 1, Escape(f)) && p + 1 + |Escape(f)| == |input|
    ensures ScanRow(input, delim, p, row, [], seen) == RowScan(row + [f], |input|)
  {
    ReadUnterminated(input, p + 1, f, []);
    assert [] + f == f;
    ScanRowAtQuote(input, delim, p, row, seen, Span(f, |input|));
  }

  /** An input that opens a quote and never closes it is one row of one field, and
      reading it exhausts the source. */
  lemma UnterminatedInput(f: string, delim: char)
    ensures ReadAll([Quote] + Escape(f), delim, 0) == [[f]]
  {
    var input := [Quote] + Escape(f);
    MatchesInside([Quote], Escape(f), []);
    assert [Quote] + Escape(f) + [] == input;
    UnterminatedField(input, delim, 0, f, [], false);
    assert [] + [f] == [f];
  }

  /** The unterminated quote `"abc` reads as the row `["abc"]`. */
  lemma UnterminatedQuote()
    ensures ReadAll("\"abc", ',', 0) == [["abc"]]
  {
    UnterminatedInput("abc", ',');
    assert "a"[..0] == [] && "ab"[..1] == "a" && "abc"[..2] == "ab";
    assert Escape("abc") == "abc";
    assert [Quote] + "abc" == "\"abc";
  }

  /** The escaped inside of a non-empty field: its first character escaped, then the rest. */
  lemma EscapedStep(input: string, p: nat, f: string)
    requires f != []
    requires Matches(input, p, Escape(f))
    requires ClosingQuote(input, p + |Escape(f)|)
    ensures var n := |EscapeChar(f[0])|;
            |Escape(f)| == n + |Escape(f[1..])| &&
            Matches(input, p, EscapeChar(f[0])) && Matches(input, p + n, Escape(f[1..])) &&
            ClosingQuote(input, p + n + |Escape(f[1..])|)
  {
    EscapeFront(f);
    MatchesConcat(input, p, EscapeChar(f[0]), Escape(f[1..]));
  }

  lemma AppendFront(field: string, f: string)
    requires f != []
    ensures field + [f[0]] + f[1..] == field + f
  {
    assert f == [f[0]] + f[1..];
  }

  /** One escaped character inside a quoted span is read back as that character;
      in particular a doubled quote stands for one quote. */
  lemma ReadEscapedChar(input: string, p: nat, c: char, field: string)
    requires Matches(input, p, EscapeChar(c))
    ensures p + |EscapeChar(c)| <= |input| &&
            ScanQuoted(input, p, field) == ScanQuoted(input, p + |EscapeChar(c)|, field + [c])
  {
    MatchesBound(input, p, EscapeChar(c));
    if c == Quote {
      assert EscapeChar(c)[1..] == [Quote];
    }
  }

  /** Where a quoted field is written, its opening quote, escaped inside and closing quote. */
  lemma QuotedLayout(input: string, p: nat, f: string, delim: char, quoteAll: bool)
    requires NeedsQuote(f, delim, quoteAll)
    requires Matches(input, p, EncodeField(f, delim, quoteAll))
    requires var q := p + |EncodeField(f, delim, quoteAll)|;
             q < |input| && input[q] != Quote
    ensures |EncodeField(f, delim, quoteAll)| == |Escape(f)| + 2
    ensures p < |input| && input[p] == Quote
    ensures Matches(input, p + 1, Escape(f))
    ensures ClosingQuote(input, p + 1 + |Escape(f)|)
  {
    assert EncodeField(f, delim, quoteAll) == [Quote] + Escape(f) + [Quote];
    MatchesConcat(input, p, [Quote] + Escape(f), [Quote]);
    MatchesConcat(input, p, [Quote], Escape(f));
  }

  /** The reader's step at an opening quote. */
  lemma ScanRowAtQuote(input: string, delim: char, p: nat, row: seq<string>, seen: bool, s: Span)
    requires p < |input| && input[p] == Quote
    requires ScanQuoted(input, p + 1, []) == s
    ensures ScanRow(input, delim, p, row, [], seen) == ScanRow(input, delim, s.next, row, s.field, true)
  {
  }

  /** A quoted field followed by something other than a quote is read back as the field. */
  lemma ReadQuotedField(input: string, p: nat, f: string, delim: char, quoteAll: bool,
                        row: seq<string>, seen: bool)
    requires NeedsQuote(f, delim, quoteAll)
    requires Matches(input, p, EncodeField(f, delim, quoteAll))
    requires var q := p + |EncodeField(f, delim, quoteAll)|;
             q < |input| && input[q] != Quote
    ensures EncodeField(f, delim, quoteAll) != []
    ensures ScanRow(input, delim, p, row, [], seen)
            == ScanRow(input, delim, p + |EncodeField(f, delim, quoteAll)|, row, f, true)
  {
    QuotedLayout(input, p, f, delim, quoteAll);
    ReadEscaped(input, p + 1, f, []);
    assert [] + f == f;
    ScanRowAtQuote(input, delim, p, row, seen, Span(f, p + 1 + |Escape(f)| + 1));
  }

  /** A field written without quotes is read back as the field. */
  lemma ReadPlainField(input: string, p: nat, f: string, delim: char, quoteAll: bool,
                       row: seq<string>, seen: bool)
    requires !NeedsQuote(f, delim, quoteAll)
    requires Matches(input, p, EncodeField(f, delim, quoteAll))
    ensures var e := EncodeField(f, delim, quoteAll);
            p + |e| <= |input| &&
            ScanRow(input, delim, p, row, [], seen) == ScanRow(input, delim, p + |e|, row, f, seen || e != [])
  {
    assert EncodeField(f, delim, quoteAll) == f;
    assert !NeedsQuote(f, delim, false);
    ReadPlain(input, p, f, delim, row, [], seen);
    assert [] + f == f;
  }

  /** An encoded field followed by a delimiter or a newline is read back as the field. */
  lemma ReadField(input: string, p: nat, f: string, delim: char, quoteAll: bool,
                  row: seq<string>, seen: bool)
    requires GoodDelimiter(delim)
    requires Matches(input, p, EncodeField(f, delim, quoteAll))
    requires var q := p + |EncodeField(f, delim, quoteAll)|;
             q < |input| && (input[q] == delim || input[q] == Newline)
    ensures var e := EncodeField(f, delim, quoteAll);
            ScanRow(input, delim, p, row, [], seen) == ScanRow(input, delim, p + |e|, row, f, seen || e != [])
  {
    if NeedsQuote(f, delim, quoteAll) {
      ReadQuotedField(input, p, f, delim, quoteAll, row, seen);
    } else {
      ReadPlainField(input, p, f, delim, quoteAll, row, seen);
    }
  }

  /** The encoded fields `row[i..]` followed by the newline are read back as `row[i..]`. */
  lemma {:induction false} ReadFieldsFrom(input: string, p: nat, row: seq<string>, i: nat,
                                          delim: char, quoteAll: bool, acc: seq<string>, seen: bool)
    requires GoodDelimiter(delim) && i < |row|
    requires Matches(input, p, EncodeFieldsFrom(row, delim, quoteAll, i))
    requires var q := p + |EncodeFieldsFrom(row, delim, quoteAll, i)|; q < |input| && input[q] == Newline
    requires seen || EncodeFieldsFrom(row, delim, quoteAll, i) != []
    ensures ScanRow(input, delim, p, acc, [], seen)
            == RowScan(acc + row[i..], p + |EncodeFieldsFrom(row, delim, quoteAll, i)| + 1)
    decreases |row| - i
  {
    var e := EncodeField(row[i], delim, quoteAll);
    if i == |row| - 1 {
      ReadLastField(input, p, row, i, delim, quoteAll, acc, seen);
    } else {
      ReadInnerField(input, p, row, i, delim, quoteAll, acc, seen);
      ReadFieldsFrom(input, p + |e| + 1, row, i + 1, delim, quoteAll, acc + [row[i]], true);
      AppendRest(acc, row, i);
    }
  }

  lemma AppendRest(acc: seq<string>, row: seq<string>, i: nat)
    requires i < |row|
    ensures acc + [row[i]] + row[i + 1..] == acc + row[i..]
  {
    assert row[i..] == [row[i]] + row[i + 1..];
  }

  /** The last field of a row, followed by the newline, completes the row. */
  lemma ReadLastField(input: string, p: nat, row: seq<string>, i: nat,
                      delim: char, quoteAll: bool, acc: seq<string>, seen: bool)
    requires GoodDelimiter(delim) && i == |row| - 1
    requires Matches(input, p, EncodeFieldsFrom(row, delim, quoteAll, i))
    requires var q := p + |EncodeFieldsFrom(row, delim, quoteAll, i)|; q < |input| && input[q] == Newline
    requires seen || EncodeFieldsFrom(row, delim, quoteAll, i) != []
    ensures ScanRow(input, delim, p, acc, [], seen)
            == RowScan(acc + row[i..], p + |EncodeFieldsFrom(row, delim, quoteAll, i)| + 1)
  {
    var e := EncodeField(row[i], delim, quoteAll);
    assert EncodeFieldsFrom(row, delim, quoteAll, i) == e by {
      assert e + [] + [] == e;
    }
    ReadField(input, p, row[i], delim, quoteAll, acc, seen);
    assert row[i..] == [row[i]];
  }

  /** A field that is not the last of its row, with the delimiter after it, is added
      to the row and leaves the reader where the encoding of the next field starts. */
  lemma ReadInnerField(input: string, p: nat, row: seq<string>, i: nat,
                       delim: char, quoteAll: bool, acc: seq<string>, seen: bool)
    requires GoodDelimiter(delim) && i < |row| - 1
    requires Matches(input, p, EncodeFieldsFrom(row, delim, quoteAll, i))
    ensures var e := EncodeField(row[i], delim, quoteAll);
            var rest := EncodeFieldsFrom(row, delim, quoteAll, i + 1);
            |EncodeFieldsFrom(row, delim, quoteAll, i)| == |e| + 1 + |rest| &&
            Matches(input, p + |e| + 1, rest) &&
            ScanRow(input, delim, p, acc, [], seen)
            == ScanRow(input, delim, p + |e| + 1, acc + [row[i]], [], true)
  {
    var e := EncodeField(row[i], delim, quoteAll);
    var rest := EncodeFieldsFrom(row, delim, quoteAll, i + 1);
    assert EncodeFieldsFrom(row, delim, quoteAll, i) == e + [delim] + rest;
    MatchesConcat(input, p, e + [delim], rest);
    MatchesConcat(input, p, e, [delim]);
    MatchesBound(input, p + |e| + 1, rest);
    ReadField(input, p, row[i], delim, quoteAll, acc, seen);
  }

  /** Only the empty row and the unquoted [""] have no characters before the newline. */
  lemma EncodedFieldsNonEmpty(row: seq<string>, delim: char, quoteAll: bool)
    requires row != [] && Recoverable(row, quoteAll)
    ensures EncodeFieldsFrom(row, delim, quoteAll, 0) != []
    ensures EncodeFieldsFrom(row, delim, quoteAll, 0)[0] != Newline || delim == Newline
  {
    var e := EncodeField(row[0], delim, quoteAll);
    if |row| == 1 {
      assert EncodeFieldsFrom(row, delim, quoteAll, 0) == e;
      if !NeedsQuote(row[0], delim, quoteAll) {
        assert row[0] != [];
        assert row[0][0] in row[0];
      }
    } else {
      var rest := EncodeFieldsFrom(row, delim, quoteAll, 1);
      assert EncodeFieldsFrom(row, delim, quoteAll, 0) == e + [delim] + rest;
      if e != [] && !NeedsQuote(row[0], delim, quoteAll) {
        assert e[0] in row[0];
      }
    }
  }

  /** Where a row is written: its fields, then the newline. */
  lemma RowLayout(input: string, p: nat, row: seq<string>, delim: char, quoteAll: bool)
    requires Matches(input, p, EncodeRow(row, delim, quoteAll))
    ensures var fields := EncodeFieldsFrom(row, delim, quoteAll, 0);
            |EncodeRow(row, delim, quoteAll)| == |fields| + 1 &&
            Matches(input, p, fields) && p + |fields| < |input| && input[p + |fields|] == Newline
  {
    MatchesConcat(input, p, EncodeFieldsFrom(row, delim, quoteAll, 0), [Newline]);
  }

  /** A written row found at `p` is read back as the row, and the reader stops just
      after its newline, whatever follows. */
  lemma ReadRowAt(input: string, p: nat, row: seq<string>, delim: char, quoteAll: bool)
    requires GoodDelimiter(delim) && Recoverable(row, quoteAll)
    requires Matches(input, p, EncodeRow(row, delim, quoteAll))
    ensures p + |EncodeRow(row, delim, quoteAll)| <= |input|
    ensures ReadRowSpec(input, delim, p) == Some(RowScan(row, p + |EncodeRow(row, delim, quoteAll)|))
  {
    RowLayout(input, p, row, delim, quoteAll);
    if row == [] {
      assert EncodeFieldsFrom(row, delim, quoteAll, 0) == [];
    } else {
      EncodedFieldsNonEmpty(row, delim, quoteAll);
      ReadFieldsFrom(input, p, row, 0, delim, quoteAll, [], false);
      assert [] + row[0..] == row;
    }
  }

  /** Reading back one written row gives the row, and stops just after its newline,
      whatever precedes or follows it. */
  lemma RoundTrip(pre: string, row: seq<string>, post: string, delim: char, quoteAll: bool)
    requires GoodDelimiter(delim) && Recoverable(row, quoteAll)
    ensures var text := EncodeRow(row, delim, quoteAll);
            ReadRowSpec(pre + text + post, delim, |pre|) == Some(RowScan(row, |pre| + |text|))
  {
    MatchesInside(pre, EncodeRow(row, delim, quoteAll), post);
    ReadRowAt(pre + EncodeRow(row, delim, quoteAll) + post, |pre|, row, delim, quoteAll);
  }

  /** One row read off the front of the remaining input. */
  lemma ReadAllStep(input: string, delim: char, pos: nat, row: seq<string>, next: nat)
    requires pos <= |input|
    requires ReadRowSpec(input, delim, pos) == Some(RowScan(row, next))
    ensures ReadAll(input, delim, pos) == [row] + ReadAll(input, delim, next)
  {
  }

  /** Every row of `rows` reads back as itself. */
  predicate AllRecoverable(rows: seq<seq<string>>, quoteAll: bool)
  {
    forall k :: 0 <= k < |rows| ==> Recoverable(rows[k], quoteAll)
  }

  lemma EncodeRowsFront(rows: seq<seq<string>>, delim: char, quoteAll: bool)
    requires rows != []
    ensures var first := EncodeRow(rows[0], delim, quoteAll);
            var others := EncodeRows(rows[1..], delim, quoteAll);
            EncodeRows(rows, delim, quoteAll) == first + others &&
            |EncodeRows(rows, delim, quoteAll)| == |first| + |others|
  {
  }

  lemma AllRecoverableTail(rows: seq<seq<string>>, quoteAll: bool)
    requires rows != [] && AllRecoverable(rows, quoteAll)
    ensures Recoverable(rows[0], quoteAll) && AllRecoverable(rows[1..], quoteAll)
  {
    forall k | 0 <= k < |rows[1..]| ensures Recoverable(rows[1..][k], quoteAll) {
      assert rows[1..][k] == rows[k + 1];
    }
  }

  /** The first of several written rows is read back, leaving the others. */
  lemma ReadFirstRow(input: string, p: nat, rows: seq<seq<string>>, delim: char, quoteAll: bool)
    requires GoodDelimiter(delim) && rows != [] && Recoverable(rows[0], quoteAll)
    requires Matches(input, p, EncodeRows(rows, delim, quoteAll))
    ensures var first := EncodeRow(rows[0], delim, quoteAll);
            var others := EncodeRows(rows[1..], delim, quoteAll);
            |EncodeRows(rows, delim, quoteAll)| == |first| + |others| &&
            Matches(input, p + |first|, others) &&
            ReadAll(input, delim, p) == [rows[0]] + ReadAll(input, delim, p + |first|)
  {
    var first := EncodeRow(rows[0], delim, quoteAll);
    EncodeRowsFront(rows, delim, quoteAll);
    MatchesConcat(input, p, first, EncodeRows(rows[1..], delim, quoteAll));
    ReadRowAt(input, p, rows[0], delim, quoteAll);
    ReadAllStep(input, delim, p, rows[0], p + |first|);
  }

  /** Rows written one after another and found at `p`, running to the end of the
      input, are read back one after another, and reading stops exactly at the end. */
  lemma {:induction false} RoundTripRows(input: string, p: nat, rows: seq<seq<string>>, delim: char, quoteAll: bool)
    requires GoodDelimiter(delim) && AllRecoverable(rows, quoteAll)
    requires Matches(input, p, EncodeRows(rows, delim, quoteAll))
    requires p + |EncodeRows(rows, delim, quoteAll)| == |input|
    ensures ReadAll(input, delim, p) == rows
    decreases |rows|
  {
    if rows != [] {
      ReadFirstRow(input, p, rows, delim, quoteAll);
      AllRecoverableTail(rows, quoteAll);
      RoundTripRows(input, p + |EncodeRow(rows[0], delim, quoteAll)|, rows[1..], delim, quoteAll);
      assert [rows[0]] + rows[1..] == rows;
    }
  }

  /** The whole written text, read from its start, yields the rows written. */
  lemma ReadWritten(rows: seq<seq<string>>, delim: char, quoteAll: bool)
    requires GoodDelimiter(delim) && AllRecoverable(rows, quoteAll)
    ensures ReadAll(EncodeRows(rows, delim, quoteAll), delim, 0) == rows
  {
    var text := EncodeRows(rows, delim, quoteAll);
    MatchesInside([], text, []);
    assert [] + text + [] == text;
    RoundTripRows(text, 0, rows, delim, quoteAll);
  }

  /** The written fields of a non-empty row carry exactly one unquoted delimiter
      between each pair of neighbouring fields. */
  lemma WrittenDelimiters(row: seq<string>, delim: char, quoteAll: bool)
    requires GoodDelimiter(delim) && row != [] && Recoverable(row, quoteAll)
    ensures UnquotedDelimiters(EncodeRow(row, delim, quoteAll), delim, 0) == |row| - 1
  {
    var text := EncodeRow(row, delim, quoteAll);
    RoundTrip([], row, [], delim, quoteAll);
    assert [] + text + [] == text;
    EncodedFieldsNonEmpty(row, delim, quoteAll);
    RowFieldCount(text, delim, 0);
  }

  /** A delimiter on each side of a field yields empty fields around it. */
  lemma EmptyFieldsRead()
    ensures ReadAll(",a,\n", ',', 0) == [["", "a", ""]]
  {
    ReadWritten([["", "a", ""]], ',', false);
    assert EncodeRows([["", "a", ""]], ',', false) == ",a,\n";
  }

  /** Two newline-terminated rows read as two rows. */
  lemma TwoRowsRead()
    ensures ReadAll("a,b\nc,d\n", ',', 0) == [["a", "b"], ["c", "d"]]
  {
    ReadWritten([["a", "b"], ["c", "d"]], ',', false);
    TwoRowsText();
  }

  lemma TwoRowsText()
    ensures EncodeRows([["a", "b"], ["c", "d"]], ',', false) == "a,b\nc,d\n"
  {
    var rows := [["a", "b"], ["c", "d"]];
    EncodeRowsFront(rows, ',', false);
    EncodeRowsFront(rows[1..], ',', false);
    assert rows[1..][1..] == [];
    FirstRowText();
    SecondRowText();
  }

  lemma FirstRowText()
    ensures EncodeRow(["a", "b"], ',', false) == "a,b\n"
  {
  }

  lemma SecondRowText()
    ensures EncodeRow(["c", "d"], ',', false) == "c,d\n"
  {
  }

  /** The one row the round trip loses: without quoting, [""] is written exactly as
      the empty row is, as a bare newline, and that reads back as the empty row. */
  lemma EmptyFieldLost(delim: char)
    requires GoodDelimiter(delim)
    ensures EncodeRow([[]], delim, false) == EncodeRow([], delim, false) == [Newline]
    ensures ReadAll(EncodeRow([[]], delim, false), delim, 0) == [[]]
  {
    assert EncodeFieldsFrom([[]], delim, false, 0) == [];
    BlankLine([Newline], delim, 0);
  }

  /** The writer's fixture rows, written with a comma and read back. */
  lemma FixtureRoundTrip()
    ensures ReadAll(EncodeRows([["hello", "world"], ["foo", "bar", "baz"]], ',', false), ',', 0)
            == [["hello", "world"], ["foo", "bar", "baz"]]
    ensures ReadAll(EncodeRows([["a,b", "c\"d", "e\nf"]], ',', false), ',', 0) == [["a,b", "c\"d", "e\nf"]]
  {
    ReadWritten([["hello", "world"], ["foo", "bar", "baz"]], ',', false);
    ReadWritten([["a,b", "c\"d", "e\nf"]], ',', false);
  }

  /** A writer given `rows` one `WriteRow` at a time: what reaches its sink is
      `EncodeRows` of the rows, with the writer's normalised delimiter. */
  method WriteRows(rows: seq<seq<string>>, requested: char, quoteAll: bool) returns (text: string)
    ensures text == EncodeRows(rows, NormalizeDelimiter(requested), quoteAll)
  {
    var w := new Writer(requested, quoteAll);
    var i := 0;
    while i < |rows|
      invariant 0 <= i <= |rows|
      invariant w.Valid() && w.delimiter == NormalizeDelimiter(requested) && w.quoteAll == quoteAll
      invariant w.output == EncodeRows(rows[..i], w.delimiter, quoteAll)
    {
      assert rows[..i + 1] == rows[..i] + [rows[i]];
      EncodeRowsSnoc(rows[..i], rows[i], w.delimiter, quoteAll);
      var written := w.WriteRow(rows[i]);
      i := i + 1;
    }
    assert rows[..|rows|] == rows;
    text := w.output;
  }

  /** A reader over `text` asked for rows until its end flag is set: the rows it
      returns are `ReadAll` of the text, and the flag is then set. */
  method ReadRows(text: string, requested: char) returns (read: seq<seq<string>>, atEnd: bool)
    ensures read == ReadAll(text, NormalizeDelimiter(requested), 0)
    ensures atEnd
  {
    var r := new Reader(text, requested);
    read := [];
    while !r.End()
      invariant r.Valid() && r.input == text && r.delimiter == NormalizeDelimiter(requested)
      invariant read + ReadAll(text, r.delimiter, r.pos) == ReadAll(text, r.delimiter, 0)
      decreases |text| - r.pos, if r.finished then 0 else 1
    {
      ghost var before := r.pos;
      var ok, row := r.ReadRow();
      if ok {
        ReadAllStep(text, r.delimiter, before, row, r.pos);
        read := read + [row];
      }
    }
    atEnd := r.End();
  }

  /** The round trip through the two classes, as the round-trip tests run it: the
      rows read back from what a writer wrote are `ReadAll` of `EncodeRows`, and for a
      usable delimiter and recoverable rows they are exactly the rows written. */
  method WriteThenRead(rows: seq<seq<string>>, requested: char, quoteAll: bool)
    returns (read: seq<seq<string>>, atEnd: bool)
    ensures var delim := NormalizeDelimiter(requested);
            read == ReadAll(EncodeRows(rows, delim, quoteAll), delim, 0)
    ensures atEnd
    ensures GoodDelimiter(NormalizeDelimiter(requested)) && AllRecoverable(rows, quoteAll) ==> read == rows
  {
    var text := WriteRows(rows, requested, quoteAll);
    read, atEnd := ReadRows(text, requested);
    if GoodDelimiter(NormalizeDelimiter(requested)) && AllRecoverable(rows, quoteAll) {
      ReadWritten(rows, NormalizeDelimiter(requested), quoteAll);
    }
  }
}
