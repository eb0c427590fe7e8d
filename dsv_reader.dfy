/** The DSV row reader: a character-level state machine that splits each
    newline-terminated row of a character source into its fields. */
module DSVReader {
  import opened DSVCommon
  import opened Wrappers

  /** The outcome of scanning a quoted span: the field as extended by the span,
      and the position just after the span. */
  datatype Span = Span(field: string, next: nat)

  /** The outcome of scanning one row: its fields, and the position just after it. */
  datatype RowScan = RowScan(row: seq<string>, next: nat)

  /** Scans a quoted span whose opening quote sits just before `pos`, appending its
      content to `field`: every character is kept verbatim, a doubled quote stands for
      one quote, a lone quote closes the span, and the end of the input closes it too. */
  function ScanQuoted(input: string, pos: nat, field: string): (s: Span)
    requires pos <= |input|
    ensures pos <= s.next <= |input|
    ensures pos < |input| ==> pos < s.next
    decreases |input| - pos
  {
    if pos == |input| then Span(field, pos)
    else if input[pos] == Quote then
      if pos + 1 < |input| && input[pos + 1] == Quote then ScanQuoted(input, pos + 2, field + [Quote])
      else Span(field, pos + 1)
    else ScanQuoted(input, pos + 1, field + [input[pos]])
  }

  /** Scans the rest of a row from `pos`, given the fields already completed (`row`),
      the field under construction (`field`) and whether anything other than a bare
      newline has been seen in this row (`seen`). */
  function ScanRow(input: string, delim: char, pos: nat, row: seq<string>, field: string, seen: bool): (r: RowScan)
    requires pos <= |input|
    ensures pos <= r.next <= |input|
    ensures pos < |input| ==> pos < r.next
    decreases |input| - pos
  {
    if pos == |input| then RowScan(row + [field], pos)
    else if input[pos] == Newline then
      if !seen && field == [] then RowScan(row, pos + 1) else RowScan(row + [field], pos + 1)
    else if input[pos] == Quote then
      var span := ScanQuoted(input, pos + 1, field);
      ScanRow(input, delim, span.next, row, span.field, true)
    else if input[pos] == delim then ScanRow(input, delim, pos + 1, row + [field], [], true)
    else ScanRow(input, delim, pos + 1, row, field + [input[pos]], true)
  }

  /** What one call of ReadRow at position `pos` yields: nothing when the source is
      already exhausted, otherwise the row scanned from an empty state. */
  function ReadRowSpec(input: string, delim: char, pos: nat): (r: Option<RowScan>)
    requires pos <= |input|
    ensures r.None? <==> pos == |input|
    ensures r.Some? ==> pos < r.value.next <= |input|
  {
    if pos == |input| then None else Some(ScanRow(input, delim, pos, [], [], false))
  }

  /** The rows a caller obtains by calling ReadRow from `pos` until it returns false. */
  function ReadAll(input: string, delim: char, pos: nat): (rows: seq<seq<string>>)
    requires pos <= |input|
    decreases |input| - pos
  {
    if pos == |input| then []
    else
      var r := ScanRow(input, delim, pos, [], [], false);
      [r.row] + ReadAll(input, delim, r.next)
  }

  /** A row that stops before the end of the input stops just after a newline. */
  lemma {:induction false} ScanRowStopsAfterNewline(input: string, delim: char, pos: nat,
                                                    row: seq<string>, field: string, seen: bool)
    requires pos <= |input|
    ensures var r := ScanRow(input, delim, pos, row, field, seen);
            r.next < |input| ==> input[r.next - 1] == Newline
    decreases |input| - pos
  {
    if pos == |input| || input[pos] == Newline {
    } else if input[pos] == Quote {
      var span := ScanQuoted(input, pos + 1, field);
      ScanRowStopsAfterNewline(input, delim, span.next, row, span.field, true);
    } else if input[pos] == delim {
      ScanRowStopsAfterNewline(input, delim, pos + 1, row + [field], [], true);
    } else {
      ScanRowStopsAfterNewline(input, delim, pos + 1, row, field + [input[pos]], true);
    }
  }

  /** A newline at the start of a row is a blank line: a row with no fields. */
  lemma BlankLine(input: string, delim: char, pos: nat)
    requires pos < |input| && input[pos] == Newline
    ensures ReadRowSpec(input, delim, pos) == Some(RowScan([], pos + 1))
  {
  }

  /** Every row read consumes at least one character, so there are at most as many
      rows as characters left, and at least one while any are left. */
  lemma {:induction false} ReadAllBound(input: string, delim: char, pos: nat)
    requires pos <= |input|
    ensures |ReadAll(input, delim, pos)| <= |input| - pos
    ensures pos < |input| ==> |ReadAll(input, delim, pos)| >= 1
    decreases |input| - pos
  {
    if pos < |input| {
      ReadAllBound(input, delim, ScanRow(input, delim, pos, [], [], false).next);
    }
  }

  /** Number of delimiters that stand outside quoted spans between `pos` and the end
      of the row (the next unquoted newline, or the end of the input). */
  function UnquotedDelimiters(input: string, delim: char, pos: nat): nat
    requires pos <= |input|
    decreases |input| - pos
  {
    if pos == |input| || input[pos] == Newline then 0
    else if input[pos] == Quote then UnquotedDelimiters(input, delim, ScanQuoted(input, pos + 1, []).next)
    else if input[pos] == delim then 1 + UnquotedDelimiters(input, delim, pos + 1)
    else UnquotedDelimiters(input, delim, pos + 1)
  }

  /** The content a quoted span contributes does not depend on the field it extends,
      and neither does where the span ends. */
  lemma {:induction false} ScanQuotedAppends(input: string, pos: nat, field: string)
    requires pos <= |input|
    ensures var plain := ScanQuoted(input, pos, []);
            ScanQuoted(input, pos, field) == Span(field + plain.field, plain.next)
    decreases |input| - pos
  {
    if pos == |input| {
      assert field + [] == field;
    } else if input[pos] == Quote {
      if pos + 1 < |input| && input[pos + 1] == Quote {
        ScanQuotedAppends(input, pos + 2, field + [Quote]);
        ScanQuotedAppends(input, pos + 2, [Quote]);
        assert [] + [Quote] == [Quote];
        var rest := ScanQuoted(input, pos + 2, []).field;
        assert field + [Quote] + rest == field + ([Quote] + rest);
      } else {
        assert field + [] == field;
      }
    } else {
      ScanQuotedAppends(input, pos + 1, field + [input[pos]]);
      ScanQuotedAppends(input, pos + 1, [input[pos]]);
      assert [] + [input[pos]] == [input[pos]];
      var rest := ScanQuoted(input, pos + 1, []).field;
      assert field + [input[pos]] + rest == field + ([input[pos]] + rest);
    }
  }

  /** A row's field count: one more than its unquoted delimiters, except for the
      blank line (a newline before anything else of the row), which has no fields. */
  lemma {:induction false} FieldCount(input: string, delim: char, pos: nat, row: seq<string>, field: string, seen: bool)
    requires pos <= |input|
    ensures var blank := !seen && field == [] && pos < |input| && input[pos] == Newline;
            |ScanRow(input, delim, pos, row, field, seen).row|
              == |row| + UnquotedDelimiters(input, delim, pos) + (if blank then 0 else 1)
    decreases |input| - pos
  {
    if pos == |input| || input[pos] == Newline {
    } else if input[pos] == Quote {
      var span := ScanQuoted(input, pos + 1, field);
      ScanQuotedAppends(input, pos + 1, field);
      FieldCount(input, delim, span.next, row, span.field, true);
    } else if input[pos] == delim {
      FieldCount(input, delim, pos + 1, row + [field], [], true);
    } else {
      FieldCount(input, delim, pos + 1, row, field + [input[pos]], true);
    }
  }

  /** ReadRow's field count at the start of a row. */
  lemma RowFieldCount(input: string, delim: char, pos: nat)
    requires pos < |input|
    ensures input[pos] == Newline ==> ScanRow(input, delim, pos, [], [], false).row == []
    ensures input[pos] != Newline ==>
              |ScanRow(input, delim, pos, [], [], false).row| == UnquotedDelimiters(input, delim, pos) + 1
  {
    FieldCount(input, delim, pos, [], [], false);
  }

  /** A last row without its newline still counts, and its pending field is kept. */
  lemma NoTrailingNewline()
    ensures ReadAll("a,b", ',', 0) == [["a", "b"]]
  {
    var s := "a,b";
    assert [] + [s[0]] == "a" && [] + [s[2]] == "b";
    assert ScanRow(s, ',', 3, ["a"], "b", true) == RowScan(["a", "b"], 3);
    assert ScanRow(s, ',', 2, ["a"], [], true) == RowScan(["a", "b"], 3);
    assert ScanRow(s, ',', 1, [], "a", true) == RowScan(["a", "b"], 3);
    assert ScanRow(s, ',', 0, [], [], false) == RowScan(["a", "b"], 3);
  }

  /** A reader over a character source: `input` is everything the source will deliver
      and `pos` is its cursor; `finished` is the reader's end flag. */
  class Reader {
    const input: string
    var pos: nat
    const delimiter: char
    var finished: bool

    ghost predicate Valid()
      reads this
    {
      pos <= |input| && (finished ==> pos == |input|) && delimiter != Quote
    }

    constructor (source: string, requested: char)
      ensures Valid()
      ensures input == source && pos == 0 && !finished
      ensures delimiter == NormalizeDelimiter(requested)
    {
      input := source;
      pos := 0;
      delimiter := NormalizeDelimiter(requested);
      finished := false;
    }

    /** True once the reader has seen the source exhausted; it then stays true. */
    function End(): (b: bool)
      requires Valid()
      reads this
      ensures b ==> pos == |input|
    {
      finished
    }

    /** Reads the inside of a quoted span, up to and including its closing quote,
        appending it to `field`; a doubled quote stands for one quote. */
    method ReadQuoted(field: string) returns (result: string)
      requires pos <= |input|
      modifies this
      ensures ScanQuoted(input, old(pos), field) == Span(result, pos)
      ensures finished == old(finished)
    {
      result := field;
      while true
        invariant old(pos) <= pos <= |input| && finished == old(finished)
        invariant ScanQuoted(input, pos, result) == ScanQuoted(input, old(pos), field)
        decreases |input| - pos
      {
        if pos == |input| {
          return;
        }
        var ch := input[pos];
        pos := pos + 1;
        if ch == Quote {
          if pos < |input| && input[pos] == Quote {
            pos := pos + 1;
            result := result + [Quote];
          } else {
            return;
          }
        } else {
          result := result + [ch];
        }
      }
    }

    /** Reads the next row. Returns false, with no fields, only when the source is
        already exhausted; afterwards the end flag tells whether the source is exhausted. */
    method ReadRow() returns (ok: bool, row: seq<string>)
      requires Valid()
      modifies this
      ensures Valid()
      ensures ok == (old(pos) < |input|)
      ensures ok ==> ReadRowSpec(input, delimiter, old(pos)) == Some(RowScan(row, pos))
      ensures !ok ==> row == [] && pos == old(pos)
      ensures finished == (pos == |input|)
      ensures old(finished) ==> finished
    {
      row := [];
      if pos == |input| {
        finished := true;
        return false, row;
      }
      var field: string := [];
      var seen := false;
      ghost var start := pos;
      while true
        invariant start <= pos <= |input| && !finished
        invariant ScanRow(input, delimiter, pos, row, field, seen) == ScanRow(input, delimiter, start, [], [], false)
        decreases |input| - pos
      {
        if pos == |input| {
          row := row + [field];
          finished := true;
          return true, row;
        }
        var ch := input[pos];
        if ch == Newline {
          pos := pos + 1;
          if pos == |input| {
            finished := true;
          }
          if !seen && field == [] {
            return true, row;
          }
          row := row + [field];
          return true, row;
        } else if ch == Quote {
          pos := pos + 1;
          seen := true;
          field := ReadQuoted(field);
        } else if ch == delimiter {
          pos := pos + 1;
          row := row + [field];
          field := [];
          seen := true;
        } else {
          pos := pos + 1;
          field := field + [ch];
          seen := true;
        }
      }
    }
  }
}
