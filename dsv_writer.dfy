/** The DSV row writer: serialises one row of fields, quoting a field only when it
    has to (or always, when asked), doubling quotes inside quoted fields. */
module DSVWriter {
  import opened DSVCommon

  /** A field is quoted when every field is, or when it holds the delimiter, a quote
      or a newline. */
  predicate NeedsQuote(field: string, delim: char, quoteAll: bool)
  {
    quoteAll || delim in field || Quote in field || Newline in field
  }

  /** What one character of a quoted field becomes: a quote is doubled. */
  function EscapeChar(c: char): string
  {
    if c == Quote then [Quote, Quote] else [c]
  }

  /** The inside of a quoted field: each character escaped in turn, from the left. */
  function Escape(field: string): string
  {
    if field == [] then [] else Escape(field[..|field| - 1]) + EscapeChar(field[|field| - 1])
  }

  /** A field as it appears in the output. */
  function EncodeField(field: string, delim: char, quoteAll: bool): string
  {
    if NeedsQuote(field, delim, quoteAll) then [Quote] + Escape(field) + [Quote] else field
  }

  /** The fields `row[i..]` encoded in order, with the delimiter after every field
      of the row except its last. */
  function EncodeFieldsFrom(row: seq<string>, delim: char, quoteAll: bool, i: nat): string
    requires i <= |row|
    decreases |row| - i
  {
    if i == |row| then []
    else EncodeField(row[i], delim, quoteAll) + (if i < |row| - 1 then [delim] else [])
         + EncodeFieldsFrom(row, delim, quoteAll, i + 1)
  }

  /** A whole row as it appears in the output: its fields and one newline. */
  function EncodeRow(row: seq<string>, delim: char, quoteAll: bool): string
  {
    EncodeFieldsFrom(row, delim, quoteAll, 0) + [Newline]
  }

  /** Several rows written one after another. */
  function EncodeRows(rows: seq<seq<string>>, delim: char, quoteAll: bool): string
  {
    if rows == [] then [] else EncodeRow(rows[0], delim, quoteAll) + EncodeRows(rows[1..], delim, quoteAll)
  }

  /** Writing one more row appends its text to what the earlier rows wrote. */
  lemma {:induction false} EncodeRowsSnoc(rows: seq<seq<string>>, last: seq<string>, delim: char, quoteAll: bool)
    ensures EncodeRows(rows + [last], delim, quoteAll) == EncodeRows(rows, delim, quoteAll) + EncodeRow(last, delim, quoteAll)
    decreases |rows|
  {
    if rows == [] {
      assert [] + [last] == [last];
      assert EncodeRows([last][1..], delim, quoteAll) == [];
    } else {
      assert (rows + [last])[1..] == rows[1..] + [last];
      EncodeRowsSnoc(rows[1..], last, delim, quoteAll);
    }
  }

  /** Escaping distributes over concatenation. */
  lemma {:induction false} EscapeConcat(a: string, b: string)
    ensures Escape(a + b) == Escape(a) + Escape(b)
    decreases |b|
  {
    if b == [] {
      assert a + b == a;
    } else {
      var b' := b[..|b| - 1];
      assert (a + b)[..|a + b| - 1] == a + b';
      EscapeConcat(a, b');
    }
  }

  /** Escaping a field with n quotes yields exactly 2n quotes, and n more characters
      than the field has; every other character is left alone. */
  lemma {:induction false} EscapeCounts(field: string)
    ensures Occurrences(Escape(field), Quote) == 2 * Occurrences(field, Quote)
    ensures |Escape(field)| == |field| + Occurrences(field, Quote)
    ensures forall c :: c != Quote ==> Occurrences(Escape(field), c) == Occurrences(field, c)
  {
    if field != [] {
      var init, last := field[..|field| - 1], field[|field| - 1];
      EscapeCounts(init);
      forall c ensures Occurrences(Escape(field), c)
                       == Occurrences(Escape(init), c) + Occurrences(EscapeChar(last), c) {
        OccurrencesConcat(Escape(init), EscapeChar(last), c);
      }
      forall c ensures Occurrences(EscapeChar(last), c)
                       == (if c == last then (if last == Quote then 2 else 1) else 0) {
        EscapeCharCounts(last, c);
      }
    }
  }

  lemma EscapeCharCounts(last: char, c: char)
    ensures Occurrences(EscapeChar(last), c) == (if c == last then (if last == Quote then 2 else 1) else 0)
  {
    assert [last][..0] == [];
    assert Occurrences([last], c) == (if c == last then 1 else 0);
    if last == Quote {
      assert [Quote, Quote][..1] == [last];
    }
  }

  lemma {:induction false} OccurrencesConcat(a: string, b: string, c: char)
    ensures Occurrences(a + b, c) == Occurrences(a, c) + Occurrences(b, c)
    decreases |b|
  {
    if b != [] {
      assert (a + b)[..|a + b| - 1] == a + b[..|b| - 1];
      OccurrencesConcat(a, b[..|b| - 1], c);
    } else {
      assert a + b == a;
    }
  }

  /** The quoting decision as the output shows it: an encoded field opens with a quote
      exactly when it needed quoting, and otherwise it is the field itself. */
  lemma QuotingDecision(field: string, delim: char, quoteAll: bool)
    ensures var e := EncodeField(field, delim, quoteAll);
            (e != [] && e[0] == Quote) <==> NeedsQuote(field, delim, quoteAll)
    ensures !NeedsQuote(field, delim, quoteAll) ==> EncodeField(field, delim, quoteAll) == field
    ensures NeedsQuote(field, delim, quoteAll) ==>
              Occurrences(EncodeField(field, delim, quoteAll), Quote) == 2 * Occurrences(field, Quote) + 2
  {
    var e := EncodeField(field, delim, quoteAll);
    if NeedsQuote(field, delim, quoteAll) {
      EscapeCounts(field);
      OccurrencesConcat([Quote] + Escape(field), [Quote], Quote);
      OccurrencesConcat([Quote], Escape(field), Quote);
      assert Occurrences([Quote], Quote) == 1 by {
        assert [Quote][..0] == [];
      }
    } else if e != [] {
      assert e[0] in field;
    }
  }

  /** Writing field `i` and its delimiter moves the writer on to field `i + 1`. */
  lemma FieldsStep(out: string, row: seq<string>, delim: char, quoteAll: bool, i: nat)
    requires i < |row|
    ensures out + EncodeFieldsFrom(row, delim, quoteAll, i)
            == out + EncodeField(row[i], delim, quoteAll) + (if i < |row| - 1 then [delim] else [])
               + EncodeFieldsFrom(row, delim, quoteAll, i + 1)
  {
  }

  /** Once every field is written, the newline completes the row. */
  lemma FieldsDone(start: string, out: string, row: seq<string>, delim: char, quoteAll: bool)
    requires start + EncodeFieldsFrom(row, delim, quoteAll, 0) == out + EncodeFieldsFrom(row, delim, quoteAll, |row|)
    ensures start + EncodeRow(row, delim, quoteAll) == out + [Newline]
  {
    assert out + [] == out;
  }

  /** The empty row is written as a bare newline. */
  lemma EmptyRowWritten()
    ensures EncodeRow([], ',', false) == "\n"
  {
  }

  /** Empty fields still get the delimiters between them. */
  lemma EmptyFieldsWritten()
    ensures EncodeRow(["", "a", ""], ',', false) == ",a,\n"
  {
  }

  /** Quoting everything quotes plain fields too. */
  lemma QuoteAllWritten()
    ensures EncodeRow(["a", "b"], ',', true) == "\"a\",\"b\"\n"
  {
  }

  /** A requested quote delimiter writes commas. */
  lemma QuoteDelimiterWritten()
    ensures EncodeRow(["a", "b"], NormalizeDelimiter('"'), false) == "a,b\n"
  {
  }

  /** A writer over a character sink: `output` is everything written to the sink so far. */
  class Writer {
    var output: string
    const delimiter: char
    const quoteAll: bool

    ghost predicate Valid()
      reads this
    {
      delimiter != Quote
    }

    constructor (requested: char, quoteAll: bool)
      ensures Valid()
      ensures output == [] && delimiter == NormalizeDelimiter(requested) && this.quoteAll == quoteAll
    {
      output := [];
      delimiter := NormalizeDelimiter(requested);
      this.quoteAll := quoteAll;
    }

    /** Appends one character to the sink, which always accepts it. */
    method Put(c: char)
      modifies this
      ensures output == old(output) + [c]
    {
      output := output + [c];
    }

    /** Writes the inside of a quoted field, doubling every quote. */
    method PutEscaped(field: string)
      modifies this
      ensures output == old(output) + Escape(field)
    {
      var k := 0;
      while k < |field|
        invariant 0 <= k <= |field|
        invariant output == old(output) + Escape(field[..k])
      {
        var ch := field[k];
        assert field[..k + 1][..k] == field[..k];
        if ch == Quote {
          Put(Quote);
        }
        Put(ch);
        k := k + 1;
      }
      assert field[..|field|] == field;
    }

    /** Writes a field as it is. */
    method PutVerbatim(field: string)
      modifies this
      ensures output == old(output) + field
    {
      var k := 0;
      while k < |field|
        invariant 0 <= k <= |field|
        invariant output == old(output) + field[..k]
      {
        assert field[..k + 1] == field[..k] + [field[k]];
        Put(field[k]);
        k := k + 1;
      }
      assert field[..|field|] == field;
    }

    /** Writes one field, quoted and escaped when it needs to be. */
    method PutField(field: string)
      modifies this
      ensures output == old(output) + EncodeField(field, delimiter, quoteAll)
    {
      var needsQuote := quoteAll || delimiter in field || Quote in field || Newline in field;
      if needsQuote {
        Put(Quote);
        PutEscaped(field);
        Put(Quote);
      } else {
        PutVerbatim(field);
      }
    }

    /** Writes field `i` of a row and, unless it is the last, the delimiter after it. */
    method PutFieldOfRow(row: seq<string>, i: nat)
      requires i < |row|
      modifies this
      ensures output == old(output) + EncodeField(row[i], delimiter, quoteAll)
                        + (if i < |row| - 1 then [delimiter] else [])
    {
      PutField(row[i]);
      if i < |row| - 1 {
        Put(delimiter);
      } else {
        assert output == output + [];
      }
    }

    /** Writes one row; the sink's answers are not consulted, so the call always succeeds. */
    method WriteRow(row: seq<string>) returns (ok: bool)
      requires Valid()
      modifies this
      ensures Valid()
      ensures ok
      ensures output == old(output) + EncodeRow(row, delimiter, quoteAll)
    {
      ghost var goal := old(output) + EncodeFieldsFrom(row, delimiter, quoteAll, 0);
      var i := 0;
      while i < |row|
        invariant 0 <= i <= |row|
        invariant goal == output + EncodeFieldsFrom(row, delimiter, quoteAll, i)
      {
        FieldsStep(output, row, delimiter, quoteAll, i);
        PutFieldOfRow(row, i);
        i := i + 1;
      }
      FieldsDone(old(output), output, row, delimiter, quoteAll);
      Put(Newline);
      ok := true;
    }
  }
}
