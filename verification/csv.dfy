/**
 * The character-level CSV tokenizer of the booth endpoint (`csvToRows`):
 * quoted fields with `""` escapes, `,` between cells, `\n` between rows,
 * `\r` dropped outside quotes, and no error for unbalanced quotes.
 */
module Csv {

  import opened Text

  /** The loop's variables: finished rows, the row being built, the cell being
      built, and whether the scanner is inside a quoted field. */
  datatype Tokenizer = Tokenizer(rows: seq<seq<string>>, row: seq<string>, cell: string, inQuotes: bool)

  const Start := Tokenizer([], [], "", false)

  predicate RowsNonEmpty(rows: seq<seq<string>>) {
    forall i :: 0 <= i < |rows| ==> |rows[i]| >= 1
  }

  /** The tokenizer loop run over the remaining input `s` (the loop's `text[i..]`);
      `s[1]` is the loop's `next`, absent at the end of the input. */
  function Scan(s: string, t: Tokenizer): Tokenizer
    decreases |s|
  {
    if |s| == 0 then t
    else
      var ch := s[0];
      if t.inQuotes then
        if ch == '"' && |s| > 1 && s[1] == '"' then Scan(s[2..], t.(cell := t.cell + ['"']))
        else if ch == '"' then Scan(s[1..], t.(inQuotes := false))
        else Scan(s[1..], t.(cell := t.cell + [ch]))
      else if ch == '"' then Scan(s[1..], t.(inQuotes := true))
      else if ch == ',' then Scan(s[1..], t.(row := t.row + [t.cell], cell := ""))
      else if ch == '\r' then Scan(s[1..], t)
      else if ch == '\n' then Scan(s[1..], Tokenizer(t.rows + [t.row + [t.cell]], [], "", false))
      else Scan(s[1..], t.(cell := t.cell + [ch]))
  }

  /** The scan only appends rows, and every row it appends has a cell. */
  lemma {:induction false} ScanAppendsRows(s: string, t: Tokenizer)
    ensures |t.rows| <= |Scan(s, t).rows| && Scan(s, t).rows[..|t.rows|] == t.rows
    ensures RowsNonEmpty(t.rows) ==> RowsNonEmpty(Scan(s, t).rows)
    decreases |s|
  {
    if |s| > 0 {
      var ch := s[0];
      if t.inQuotes {
        if ch == '"' && |s| > 1 && s[1] == '"' {
          ScanAppendsRows(s[2..], t.(cell := t.cell + ['"']));
        } else if ch == '"' {
          ScanAppendsRows(s[1..], t.(inQuotes := false));
        } else {
          ScanAppendsRows(s[1..], t.(cell := t.cell + [ch]));
        }
      } else if ch == '"' {
        ScanAppendsRows(s[1..], t.(inQuotes := true));
      } else if ch == ',' {
        ScanAppendsRows(s[1..], t.(row := t.row + [t.cell], cell := ""));
      } else if ch == '\r' {
        ScanAppendsRows(s[1..], t);
      } else if ch == '\n' {
        var t' := Tokenizer(t.rows + [t.row + [t.cell]], [], "", false);
        ScanAppendsRows(s[1..], t');
        assert t'.rows[..|t.rows|] == t.rows;
      } else {
        ScanAppendsRows(s[1..], t.(cell := t.cell + [ch]));
      }
    }
  }

  /** The statements after the loop: the last cell and the last row are always pushed. */
  function Flush(t: Tokenizer): (rows: seq<seq<string>>)
    ensures |rows| == |t.rows| + 1 && rows[..|t.rows|] == t.rows
    ensures rows[|t.rows|] == t.row + [t.cell]
  {
    t.rows + [t.row + [t.cell]]
  }

  /** `csvToRows`: there is always at least one row, and every row has at least one cell. */
  function CsvToRows(text: string): (rows: seq<seq<string>>)
    ensures |rows| >= 1
    ensures RowsNonEmpty(rows)
  {
    ScanAppendsRows(text, Start);
    Flush(Scan(text, Start))
  }

  /** The same tokenizer as the source writes it: an index loop that skips two
      characters on an escaped quote. */
  method CsvToRowsLoop(text: string) returns (rows: seq<seq<string>>)
    ensures rows == CsvToRows(text)
  {
    var done: seq<seq<string>> := [];
    var row: seq<string> := [];
    var cell := "";
    var inQuotes := false;
    var i := 0;
    while i < |text|
      invariant 0 <= i <= |text|
      invariant Scan(text[i..], Tokenizer(done, row, cell, inQuotes)) == Scan(text, Start)
    {
      var ch := text[i];
      if inQuotes {
        if ch == '"' && i + 1 < |text| && text[i + 1] == '"' {
          assert text[i..][2..] == text[i + 2..];
          cell := cell + ['"'];
          i := i + 1;
        } else if ch == '"' {
          inQuotes := false;
        } else {
          cell := cell + [ch];
        }
      } else {
        if ch == '"' {
          inQuotes := true;
        } else if ch == ',' {
          row := row + [cell];
          cell := "";
        } else if ch == '\r' {
        } else if ch == '\n' {
          row := row + [cell];
          cell := "";
          done := done + [row];
          row := [];
        } else {
          cell := cell + [ch];
        }
      }
      assert text[i..][1..] == text[i + 1..];
      i := i + 1;
    }
    row := row + [cell];
    done := done + [row];
    rows := done;
  }

  // ---------------------------------------------------------------------------
  // Round trip: a quoting encoder whose output the tokenizer reads back exactly.

  /** A cell's characters with every `"` doubled. */
  function Escape(c: string): (e: string)
    ensures |e| >= |c|
  {
    if |c| == 0 then "" else (if c[0] == '"' then "\"\"" else [c[0]]) + Escape(c[1..])
  }

  function Quote(c: string): string {
    "\"" + Escape(c) + "\""
  }

  /** Every cell quoted, cells joined by `,`. */
  function EncodeRow(r: seq<string>): string
    requires |r| >= 1
  {
    if |r| == 1 then Quote(r[0]) else Quote(r[0]) + "," + EncodeRow(r[1..])
  }

  /** Rows joined by `\n`. */
  function EncodeRows(rows: seq<seq<string>>): string
    requires |rows| >= 1 && RowsNonEmpty(rows)
  {
    if |rows| == 1 then EncodeRow(rows[0]) else EncodeRow(rows[0]) + "\n" + EncodeRows(rows[1..])
  }

  /** Inside quotes, an escaped cell and its closing quote add exactly the cell's
      characters, provided no quote follows the closing one. */
  lemma {:induction false} ScanQuoted(c: string, rest: string, t: Tokenizer)
    requires t.inQuotes
    requires rest == [] || rest[0] != '"'
    ensures Scan(Escape(c) + "\"" + rest, t) == Scan(rest, t.(cell := t.cell + c, inQuotes := false))
    decreases |c|
  {
    var s := Escape(c) + "\"" + rest;
    if |c| == 0 {
      assert s == "\"" + rest;
      assert s[1..] == rest;
      assert t.cell + c == t.cell;
    } else if c[0] == '"' {
      assert s == "\"\"" + (Escape(c[1..]) + "\"" + rest);
      assert s[2..] == Escape(c[1..]) + "\"" + rest;
      ScanQuoted(c[1..], rest, t.(cell := t.cell + ['"']));
      assert t.cell + ['"'] + c[1..] == t.cell + c;
    } else {
      assert s == [c[0]] + (Escape(c[1..]) + "\"" + rest);
      assert s[1..] == Escape(c[1..]) + "\"" + rest;
      ScanQuoted(c[1..], rest, t.(cell := t.cell + [c[0]]));
      assert t.cell + [c[0]] + c[1..] == t.cell + c;
    }
  }

  /** Outside quotes, a leading quote opens a quoted field. */
  lemma ScanOpen(s: string, t: Tokenizer)
    requires |s| > 0 && s[0] == '"' && !t.inQuotes
    ensures Scan(s, t) == Scan(s[1..], t.(inQuotes := true))
  {
  }

  /** Outside quotes, a leading comma pushes the pending cell. */
  lemma ScanComma(s: string, t: Tokenizer)
    requires |s| > 0 && s[0] == ',' && !t.inQuotes
    ensures Scan(s, t) == Scan(s[1..], t.(row := t.row + [t.cell], cell := ""))
  {
  }

  /** Outside quotes, a leading line break pushes the pending cell and row. */
  lemma ScanNewline(s: string, t: Tokenizer)
    requires |s| > 0 && s[0] == '\n' && !t.inQuotes
    ensures Scan(s, t) == Scan(s[1..], Tokenizer(t.rows + [t.row + [t.cell]], [], "", false))
  {
  }

  /** Outside quotes, a quoted cell adds exactly the cell's characters. */
  lemma ScanQuote(c: string, tail: string, t: Tokenizer)
    requires !t.inQuotes
    requires tail == [] || tail[0] != '"'
    ensures Scan(Quote(c) + tail, t) == Scan(tail, t.(cell := t.cell + c))
  {
    var body := Escape(c) + "\"" + tail;
    QuoteShape(c, tail);
    ScanOpen(['"'] + body, t);
    ScanQuoted(c, tail, t.(inQuotes := true));
    assert t.(inQuotes := true).(cell := t.cell + c, inQuotes := false) == t.(cell := t.cell + c);
  }

  lemma QuoteShape(c: string, tail: string)
    ensures Quote(c) + tail == ['"'] + (Escape(c) + "\"" + tail)
    ensures (['"'] + (Escape(c) + "\"" + tail))[1..] == Escape(c) + "\"" + tail
  {
  }

  /** An encoded row leaves all but its last cell pushed and the last cell pending. */
  lemma {:induction false} ScanRow(r: seq<string>, rest: string, done: seq<seq<string>>, row: seq<string>)
    requires |r| >= 1
    requires rest == [] || rest[0] == '\n'
    ensures Scan(EncodeRow(r) + rest, Tokenizer(done, row, "", false))
         == Scan(rest, Tokenizer(done, row + r[..|r| - 1], r[|r| - 1], false))
    decreases |r|
  {
    if |r| == 1 {
      ScanQuote(r[0], rest, Tokenizer(done, row, "", false));
      assert "" + r[0] == r[0];
      assert row + r[..0] == row;
    } else {
      var tail := "," + EncodeRow(r[1..]) + rest;
      ScanFirstCell(r, rest, done, row);
      ScanRow(r[1..], rest, done, row + [r[0]]);
      RowShift(r, row);
    }
  }

  /** The first cell of a longer encoded row is pushed at its comma. */
  lemma ScanFirstCell(r: seq<string>, rest: string, done: seq<seq<string>>, row: seq<string>)
    requires |r| >= 2
    ensures Scan(EncodeRow(r) + rest, Tokenizer(done, row, "", false))
         == Scan(EncodeRow(r[1..]) + rest, Tokenizer(done, row + [r[0]], "", false))
  {
    var tail := "," + EncodeRow(r[1..]) + rest;
    assert EncodeRow(r) + rest == Quote(r[0]) + tail;
    ScanQuote(r[0], tail, Tokenizer(done, row, "", false));
    assert "" + r[0] == r[0];
    ScanComma(tail, Tokenizer(done, row, r[0], false));
    assert tail[1..] == EncodeRow(r[1..]) + rest;
  }

  lemma RowShift(r: seq<string>, row: seq<string>)
    requires |r| >= 2
    ensures row + [r[0]] + r[1..][..|r| - 2] == row + r[..|r| - 1]
    ensures r[1..][|r| - 2] == r[|r| - 1]
  {
    assert r[..|r| - 1] == [r[0]] + r[1..][..|r| - 2];
  }

  lemma {:induction false} ScanRows(rows: seq<seq<string>>, done: seq<seq<string>>)
    requires |rows| >= 1 && RowsNonEmpty(rows)
    ensures Scan(EncodeRows(rows), Tokenizer(done, [], "", false))
         == Tokenizer(done + rows[..|rows| - 1], rows[|rows| - 1][..|rows[|rows| - 1]| - 1],
                      rows[|rows| - 1][|rows[|rows| - 1]| - 1], false)
    decreases |rows|
  {
    var r := rows[0];
    if |rows| == 1 {
      ScanRow(r, "", done, []);
      assert EncodeRows(rows) + "" == EncodeRows(rows);
      assert done + rows[..0] == done;
    } else {
      var tail := "\n" + EncodeRows(rows[1..]);
      RowsShift(rows, done);
      ScanRow(r, tail, done, []);
      var t := Tokenizer(done, [] + r[..|r| - 1], r[|r| - 1], false);
      ScanNewline(tail, t);
      assert Tokenizer(t.rows + [t.row + [t.cell]], [], "", false) == Tokenizer(done + [r], [], "", false);
      ScanRows(rows[1..], done + [r]);
    }
  }

  lemma RowsShift(rows: seq<seq<string>>, done: seq<seq<string>>)
    requires |rows| >= 2 && RowsNonEmpty(rows)
    ensures RowsNonEmpty(rows[1..])
    ensures EncodeRows(rows) == EncodeRow(rows[0]) + ("\n" + EncodeRows(rows[1..]))
    ensures ("\n" + EncodeRows(rows[1..]))[1..] == EncodeRows(rows[1..])
    ensures [] + rows[0][..|rows[0]| - 1] + [rows[0][|rows[0]| - 1]] == rows[0]
    ensures done + [rows[0]] + rows[1..][..|rows| - 2] == done + rows[..|rows| - 1]
  {
    assert forall i :: 0 <= i < |rows| - 1 ==> rows[1..][i] == rows[i + 1];
    var tail := EncodeRows(rows[1..]);
    assert EncodeRow(rows[0]) + "\n" + tail == EncodeRow(rows[0]) + ("\n" + tail);
    assert ("\n" + tail)[1..] == tail;
    LastSplit(rows[0]);
    PrefixShift(rows, done);
  }

  lemma LastSplit(r: seq<string>)
    requires |r| >= 1
    ensures [] + r[..|r| - 1] + [r[|r| - 1]] == r
  {
  }

  lemma PrefixShift(rows: seq<seq<string>>, done: seq<seq<string>>)
    requires |rows| >= 2
    ensures done + [rows[0]] + rows[1..][..|rows| - 2] == done + rows[..|rows| - 1]
  {
    assert rows[..|rows| - 1] == [rows[0]] + rows[1..][..|rows| - 2];
  }

  lemma FlushLast(rows: seq<seq<string>>)
    requires |rows| >= 1 && |rows[|rows| - 1]| >= 1
    ensures Flush(Tokenizer(rows[..|rows| - 1], rows[|rows| - 1][..|rows[|rows| - 1]| - 1],
                            rows[|rows| - 1][|rows[|rows| - 1]| - 1], false)) == rows
  {
    var last := rows[|rows| - 1];
    assert last[..|last| - 1] + [last[|last| - 1]] == last;
    assert rows[..|rows| - 1] + [last] == rows;
  }

  /** Decoding an encoded table gives the table back, whatever its cells contain. */
  lemma EncodeRoundTrip(rows: seq<seq<string>>)
    requires |rows| >= 1 && RowsNonEmpty(rows)
    ensures CsvToRows(EncodeRows(rows)) == rows
  {
    ScanRows(rows, []);
    assert Start == Tokenizer([], [], "", false);
    assert CsvToRows(EncodeRows(rows)) == Flush(Scan(EncodeRows(rows), Start));
    assert [] + rows[..|rows| - 1] == rows[..|rows| - 1];
    FlushLast(rows);
  }

  // ---------------------------------------------------------------------------
  // Without quotes the tokenizer is a plain split on `\n` and then on `,`.

  /** The text with every `\r` removed. */
  function DropCR(s: string): (r: string)
    ensures '\r' !in r
  {
    if |s| == 0 then "" else (if s[0] == '\r' then "" else [s[0]]) + DropCR(s[1..])
  }

  /** Lines split on `\n`, each line split on `,`. */
  function Lines(s: string): (ls: seq<seq<string>>)
    ensures |ls| >= 1 && RowsNonEmpty(ls)
  {
    var lines := SplitBy(s, {'\n'});
    seq(|lines|, i requires 0 <= i < |lines| => SplitBy(lines[i], {','}))
  }

  /** Pending row `row` and cell `cell` continued by the first line of `ls`. */
  function Graft(row: seq<string>, cell: string, ls: seq<seq<string>>): seq<seq<string>>
    requires |ls| >= 1 && |ls[0]| >= 1
  {
    [row + [cell + ls[0][0]] + ls[0][1..]] + ls[1..]
  }

  lemma GraftEmpty(ls: seq<seq<string>>)
    requires |ls| >= 1 && |ls[0]| >= 1
    ensures Graft([], "", ls) == ls
  {
    assert "" + ls[0][0] == ls[0][0];
    assert [] + [ls[0][0]] + ls[0][1..] == ls[0];
    assert [ls[0]] + ls[1..] == ls;
  }

  predicate QuoteFree(s: string) {
    '"' !in s
  }

  lemma LinesComma(d: string)
    ensures Lines([','] + d) == [[""] + Lines(d)[0]] + Lines(d)[1..]
  {
    var lines' := SplitBy(d, {'\n'});
    var x := [','] + d;
    assert x[1..] == d;
    var lines := SplitBy(x, {'\n'});
    assert lines == [[','] + lines'[0]] + lines'[1..];
    assert ([','] + lines'[0])[1..] == lines'[0];
    assert SplitBy([','] + lines'[0], {','}) == [""] + SplitBy(lines'[0], {','});
  }

  lemma LinesNewline(d: string)
    ensures Lines(['\n'] + d) == [[""]] + Lines(d)
  {
    var x := ['\n'] + d;
    assert x[1..] == d;
    assert SplitBy(x, {'\n'}) == [""] + SplitBy(d, {'\n'});
  }

  lemma LinesChar(ch: char, d: string)
    requires ch != ',' && ch != '\n'
    ensures Lines([ch] + d) == [[[ch] + Lines(d)[0][0]] + Lines(d)[0][1..]] + Lines(d)[1..]
  {
    var lines' := SplitBy(d, {'\n'});
    var x := [ch] + d;
    assert x[1..] == d;
    var lines := SplitBy(x, {'\n'});
    assert lines == [[ch] + lines'[0]] + lines'[1..];
    assert ([ch] + lines'[0])[1..] == lines'[0];
    var P := SplitBy(lines'[0], {','});
    assert SplitBy([ch] + lines'[0], {','}) == [[ch] + P[0]] + P[1..];
  }

  lemma DropCRStep(s: string)
    requires |s| > 0
    ensures DropCR(s) == if s[0] == '\r' then DropCR(s[1..]) else [s[0]] + DropCR(s[1..])
  {
  }

  lemma GraftComma(row: seq<string>, cell: string, d: string)
    ensures Graft(row, cell, Lines([','] + d)) == Graft(row + [cell], "", Lines(d))
  {
    LinesComma(d);
    var L' := Lines(d);
    var L := Lines([','] + d);
    assert L[0][0] == "" && L[0][1..] == L'[0] && L[1..] == L'[1..];
    assert cell + "" == cell;
    assert "" + L'[0][0] == L'[0][0];
    assert [L'[0][0]] + L'[0][1..] == L'[0];
    assert row + [cell] + L'[0] == row + [cell] + [L'[0][0]] + L'[0][1..];
  }

  lemma GraftNewline(rows: seq<seq<string>>, row: seq<string>, cell: string, d: string)
    ensures rows + Graft(row, cell, Lines(['\n'] + d)) == rows + [row + [cell]] + Graft([], "", Lines(d))
  {
    LinesNewline(d);
    var L' := Lines(d);
    assert cell + "" == cell;
    assert "" + L'[0][0] == L'[0][0];
    assert [] + [L'[0][0]] + L'[0][1..] == L'[0];
    assert [L'[0]] + L'[1..] == L';
    assert Graft([], "", L') == L';
    var L := Lines(['\n'] + d);
    assert L[0] == [""] && L[1..] == L';
    assert L[0][1..] == [];
    assert row + [cell + ""] + [] == row + [cell];
    assert Graft(row, cell, L) == [row + [cell]] + L';
  }

  lemma GraftChar(row: seq<string>, cell: string, ch: char, d: string)
    requires ch != ',' && ch != '\n'
    ensures Graft(row, cell, Lines([ch] + d)) == Graft(row, cell + [ch], Lines(d))
  {
    LinesChar(ch, d);
    var L' := Lines(d);
    var L := Lines([ch] + d);
    var a, b, c := L'[0][0], L'[0][1..], L'[1..];
    assert L == [[[ch] + a] + b] + c;
    assert L[0] == [[ch] + a] + b;
    assert L[0][0] == [ch] + a && L[0][1..] == b && L[1..] == c;
    assert cell + ([ch] + a) == (cell + [ch]) + a;
  }

  lemma {:induction false} ScanPlain(s: string, t: Tokenizer)
    requires QuoteFree(s) && !t.inQuotes
    ensures Flush(Scan(s, t)) == t.rows + Graft(t.row, t.cell, Lines(DropCR(s)))
    decreases |s|
  {
    if |s| == 0 {
      assert SplitBy("", {'\n'}) == [""];
      assert SplitBy("", {','}) == [""];
      assert Lines("") == [[""]];
      assert t.cell + "" == t.cell;
      assert [""][1..] == [];
      assert t.row + [t.cell + ""] + [] == t.row + [t.cell];
      assert Graft(t.row, t.cell, [[""]]) == [t.row + [t.cell]];
    } else {
      var ch := s[0];
      var s' := s[1..];
      assert QuoteFree(s');
      DropCRStep(s);
      if ch == '\r' {
        ScanPlain(s', t);
      } else if ch == ',' {
        ScanComma(s, t);
        ScanPlain(s', t.(row := t.row + [t.cell], cell := ""));
        GraftComma(t.row, t.cell, DropCR(s'));
      } else if ch == '\n' {
        ScanNewline(s, t);
        ScanPlain(s', Tokenizer(t.rows + [t.row + [t.cell]], [], "", false));
        GraftNewline(t.rows, t.row, t.cell, DropCR(s'));
      } else {
        assert Scan(s, t) == Scan(s', t.(cell := t.cell + [ch]));
        ScanPlain(s', t.(cell := t.cell + [ch]));
        GraftChar(t.row, t.cell, ch, DropCR(s'));
      }
    }
  }

  /** Text without any quote is tokenized as `\r`-stripped lines split on `,`. */
  lemma PlainTextIsSplit(text: string)
    requires QuoteFree(text)
    ensures CsvToRows(text) == Lines(DropCR(text))
  {
    ScanPlain(text, Start);
    GraftEmpty(Lines(DropCR(text)));
    assert [] + Lines(DropCR(text)) == Lines(DropCR(text));
  }

  /** An escaped quote inside a quoted field yields one literal quote. */
  lemma EscapedQuoteExample()
    ensures CsvToRows("\"a\"\"b\",c") == [["a\"b", "c"]]
  {
    assert Escape("b") == "b";
    assert Escape("\"b") == "\"\"b";
    assert Escape("a\"b") == "a\"\"b";
    assert "\"a\"\"b\",c" == Quote("a\"b") + ",c";
    ScanQuote("a\"b", ",c", Start);
    assert "" + "a\"b" == "a\"b";
    assert Start.(cell := "" + "a\"b") == Tokenizer([], [], "a\"b", false);
    ScanComma(",c", Tokenizer([], [], "a\"b", false));
    assert ",c"[1..] == "c";
    var t := Tokenizer([], ["a\"b"], "", false);
    assert [] + ["a\"b"] == ["a\"b"];
    assert "c"[1..] == "" && "" + ['c'] == "c";
    assert Scan("c", t) == Scan("", t.(cell := "c"));
    assert Scan("", t.(cell := "c")) == t.(cell := "c");
    assert CsvToRows("\"a\"\"b\",c") == Flush(t.(cell := "c"));
    var row := ["a\"b"] + ["c"];
    assert |row| == 2 && row[0] == "a\"b" && row[1] == "c";
    assert row == ["a\"b", "c"];
  }

  /** An unterminated quote swallows the rest of the input, line breaks included,
      and raises no error. */
  lemma UnbalancedQuoteExample()
    ensures CsvToRows("\"a,\nb") == [["a,\nb"]]
  {
    var s := "\"a,\nb";
    ScanOpen(s, Start);
    assert s[1..] == "a,\nb";
    var t := Tokenizer([], [], "", true);
    assert Scan("a,\nb", t) == Scan(",\nb", t.(cell := "a"));
    assert Scan(",\nb", t.(cell := "a")) == Scan("\nb", t.(cell := "a,"));
    assert Scan("\nb", t.(cell := "a,")) == Scan("b", t.(cell := "a,\n"));
    assert Scan("b", t.(cell := "a,\n")) == Scan("", t.(cell := "a,\nb"));
    assert CsvToRows(s) == Flush(t.(cell := "a,\nb"));
    assert [] + ["a,\nb"] == ["a,\nb"];
  }

  /** Empty input still gives one row holding one empty cell. */
  lemma EmptyInputExample()
    ensures CsvToRows("") == [[""]]
  {
    assert CsvToRows("") == Flush(Scan("", Start));
    assert Scan("", Start) == Start;
    assert Flush(Start) == [[] + [""]];
    assert [] + [""] == [""];
  }
}
