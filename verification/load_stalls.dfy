/**
 * The client-side loader: a naive CSV split (lines on `\n`, cells on `,`,
 * every cell trimmed), three header columns found by exact name, and a `Map`
 * from the normalized booth id to the last row carrying it.
 */
module LoadStalls {

  import opened Options
  import opened Text
  import Records
  import Csv
  import OrderedMap

  /** `BoothRow`: `name` and `url` are absent when the cell is empty. */
  datatype BoothRow = BoothRow(id: string, rawId: string, name: Option<string>, url: Option<string>)

  type BoothMap = seq<(string, BoothRow)>

  const Separators: set<char> := {',', '\n'}

  /** `parseCSV`: every line split on commas, every cell trimmed; quotes mean nothing. */
  function ParseLines(text: string): (rows: seq<seq<string>>)
    ensures |rows| == CountIn(text, {'\n'}) + 1
    ensures forall i :: 0 <= i < |rows| ==> |rows[i]| >= 1
  {
    var lines := SplitBy(text, {'\n'});
    seq(|lines|, i requires 0 <= i < |lines| => Records.TrimAll(SplitBy(lines[i], {','})))
  }

  /** `norm`: trimmed, then upper-cased. */
  function Norm(s: string): (r: string)
    ensures IsTrimmed(r)
    ensures IsTrimmed(s) ==> r == Upper(s)
  {
    var t := Trim(s);
    assert IsTrimmed(s) ==> t == s by {
      if IsTrimmed(s) {
        TrimmedFixed(s);
      }
    }
    Upper(t)
  }

  /** Normalizing twice is normalizing once. */
  lemma NormIdempotent(s: string)
    ensures Norm(Norm(s)) == Norm(s)
  {
    TrimmedFixed(Norm(s));
    UpperIdempotent(Trim(s));
  }

  /** `header.findIndex((h) => h === name)`, with `None` for -1. */
  function FindIndex(header: seq<string>, name: string): (r: Option<nat>)
    ensures r.None? <==> name !in header
    ensures r.Some? ==> r.value < |header| && header[r.value] == name && name !in header[..r.value]
  {
    if |header| == 0 then None
    else if header[0] == name then Some(0)
    else
      match FindIndex(header[1..], name)
      case None => None
      case Some(k) =>
        assert header[..k + 1] == [header[0]] + header[1..][..k];
        Some(k + 1)
  }

  /** `cols[idx] || ""`: a missing column or a short row reads as empty. */
  function Cell(cols: seq<string>, idx: Option<nat>): (c: string)
    ensures c != "" ==> idx.Some? && idx.value < |cols| && c == cols[idx.value]
    ensures idx.Some? && idx.value < |cols| ==> c == cols[idx.value]
  {
    if idx.Some? && idx.value < |cols| then cols[idx.value] else ""
  }

  /** `s || undefined`. */
  function Present(s: string): (r: Option<string>)
    ensures r.None? <==> s == ""
    ensures r.Some? ==> r.value == s
  {
    if s == "" then None else Some(s)
  }

  /** Positions of the id, name and link columns in the header row. */
  datatype Columns = Columns(id: Option<nat>, name: Option<nat>, link: Option<nat>)

  const IdHeader: string := "攤位編號"    // 攤位編號
  const NameHeader: string := "社團名稱"  // 社團名稱
  const LinkHeader: string := "連結"              // 連結

  function ColumnsOf(header: seq<string>): Columns {
    Columns(FindIndex(header, IdHeader), FindIndex(header, NameHeader), FindIndex(header, LinkHeader))
  }

  /** The body of the row loop: a row with an empty id cell is skipped. */
  function RowOf(ix: Columns, cols: seq<string>): (b: Option<BoothRow>)
    ensures b.None? <==> Cell(cols, ix.id) == ""
    ensures b.Some? ==> b.value.rawId == Cell(cols, ix.id) && b.value.id == Norm(b.value.rawId)
    ensures b.Some? ==> b.value.name == Present(Cell(cols, ix.name)) && b.value.url == Present(Cell(cols, ix.link))
  {
    var rawId := Cell(cols, ix.id);
    if rawId == "" then None
    else Some(BoothRow(Norm(rawId), rawId, Present(Cell(cols, ix.name)), Present(Cell(cols, ix.link))))
  }

  /** The key row `cols` would be stored under, if any. */
  function KeyOf(ix: Columns, cols: seq<string>): Option<string> {
    match RowOf(ix, cols)
    case None => None
    case Some(b) => Some(b.id)
  }

  /** Every entry is stored under its own normalized id and has a non-empty raw id. */
  predicate WellFormed(m: BoothMap) {
    && OrderedMap.KeysDistinct(m)
    && forall i :: 0 <= i < |m| ==> m[i].0 == m[i].1.id && m[i].1.rawId != ""
  }

  /** The loop over the data rows: `map.set(norm(rawId), ...)` in row order. */
  function Build(ix: Columns, rows: seq<seq<string>>): (m: BoothMap)
    ensures WellFormed(m)
    ensures |m| <= |rows|
  {
    if |rows| == 0 then []
    else
      var m := Build(ix, rows[..|rows| - 1]);
      match RowOf(ix, rows[|rows| - 1])
      case None => m
      case Some(b) => OrderedMap.Set(m, b.id, b)
  }

  /** `loadStalls` after a successful fetch. The guard on an empty row list is
      never taken, since splitting always yields at least one line. */
  function LoadText(text: string): BoothMap {
    var rows := ParseLines(text);
    Build(ColumnsOf(rows[0]), rows[1..])
  }

  /** `loadStalls`: `None` when the response is not `ok`, where the source throws. */
  function Load(ok: bool, text: string): (r: Option<BoothMap>)
    ensures r.None? <==> !ok
    ensures r.Some? ==> WellFormed(r.value)
  {
    if ok then Some(LoadText(text)) else None
  }

  // ---------------------------------------------------------------------------
  // Which row wins.

  /** Some row is stored under `k`. */
  predicate Carries(ix: Columns, rows: seq<seq<string>>, k: string) {
    exists i :: 0 <= i < |rows| && KeyOf(ix, rows[i]) == Some(k)
  }

  lemma CarriesSplit(ix: Columns, rows: seq<seq<string>>, k: string)
    requires |rows| > 0
    ensures Carries(ix, rows, k) <==> Carries(ix, rows[..|rows| - 1], k) || KeyOf(ix, rows[|rows| - 1]) == Some(k)
  {
    CarriesShrinks(ix, rows, k);
    CarriesGrows(ix, rows, k);
  }

  lemma CarriesShrinks(ix: Columns, rows: seq<seq<string>>, k: string)
    requires |rows| > 0
    ensures Carries(ix, rows, k) ==> Carries(ix, rows[..|rows| - 1], k) || KeyOf(ix, rows[|rows| - 1]) == Some(k)
  {
    if Carries(ix, rows, k) {
      var i :| 0 <= i < |rows| && KeyOf(ix, rows[i]) == Some(k);
      if i < |rows| - 1 {
        CarriedByPrefix(ix, rows, k, i);
      }
    }
  }

  lemma CarriesGrows(ix: Columns, rows: seq<seq<string>>, k: string)
    requires |rows| > 0
    ensures Carries(ix, rows[..|rows| - 1], k) || KeyOf(ix, rows[|rows| - 1]) == Some(k) ==> Carries(ix, rows, k)
  {
    if Carries(ix, rows[..|rows| - 1], k) {
      var i :| 0 <= i < |rows| - 1 && KeyOf(ix, rows[..|rows| - 1][i]) == Some(k);
      CarriedByWhole(ix, rows, k, i);
    } else if KeyOf(ix, rows[|rows| - 1]) == Some(k) {
      assert 0 <= |rows| - 1 < |rows| && KeyOf(ix, rows[|rows| - 1]) == Some(k);
    }
  }

  lemma CarriedByPrefix(ix: Columns, rows: seq<seq<string>>, k: string, i: nat)
    requires i < |rows| - 1 && KeyOf(ix, rows[i]) == Some(k)
    ensures Carries(ix, rows[..|rows| - 1], k)
  {
    assert rows[..|rows| - 1][i] == rows[i];
  }

  lemma CarriedByWhole(ix: Columns, rows: seq<seq<string>>, k: string, i: nat)
    requires i < |rows| - 1 && KeyOf(ix, rows[..|rows| - 1][i]) == Some(k)
    ensures Carries(ix, rows, k)
  {
    assert rows[..|rows| - 1][i] == rows[i];
  }

  /** A key is present exactly when some row carries it. */
  lemma {:induction false} KeyPresent(ix: Columns, rows: seq<seq<string>>, k: string)
    ensures OrderedMap.Get(Build(ix, rows), k).Some? <==> Carries(ix, rows, k)
    decreases |rows|
  {
    if |rows| > 0 {
      KeyPresent(ix, rows[..|rows| - 1], k);
      KeyAfterRow(ix, rows, k);
      CarriesSplit(ix, rows, k);
    }
  }

  /** One more row adds its own key, if any, and keeps every other key's presence. */
  lemma KeyAfterRow(ix: Columns, rows: seq<seq<string>>, k: string)
    requires |rows| > 0
    ensures OrderedMap.Get(Build(ix, rows), k).Some?
        <==> OrderedMap.Get(Build(ix, rows[..|rows| - 1]), k).Some? || KeyOf(ix, rows[|rows| - 1]) == Some(k)
  {
    var m := Build(ix, rows[..|rows| - 1]);
    match RowOf(ix, rows[|rows| - 1])
    case None =>
    case Some(b) =>
      assert Build(ix, rows) == OrderedMap.Set(m, b.id, b);
  }

  /** The entry under a key is the one built from the last row carrying that key. */
  lemma {:induction false} LastRowWins(ix: Columns, rows: seq<seq<string>>, i: nat)
    requires i < |rows| && KeyOf(ix, rows[i]).Some?
    requires forall j :: i < j < |rows| ==> KeyOf(ix, rows[j]) != KeyOf(ix, rows[i])
    ensures OrderedMap.Get(Build(ix, rows), KeyOf(ix, rows[i]).value) == RowOf(ix, rows[i])
    decreases |rows|
  {
    var p := rows[..|rows| - 1];
    var k := KeyOf(ix, rows[i]).value;
    if i < |rows| - 1 {
      assert rows[i] == p[i];
      LastRowWins(ix, p, i);
    }
  }

  /** Keys appear in the order of their first row. */
  function FirstSeen(ix: Columns, rows: seq<seq<string>>): (ks: seq<string>)
    decreases |rows|
  {
    if |rows| == 0 then []
    else
      var ks := FirstSeen(ix, rows[..|rows| - 1]);
      match KeyOf(ix, rows[|rows| - 1])
      case None => ks
      case Some(k) => if k in ks then ks else ks + [k]
  }

  lemma {:induction false} KeysInFirstSeenOrder(ix: Columns, rows: seq<seq<string>>)
    ensures OrderedMap.Keys(Build(ix, rows)) == FirstSeen(ix, rows)
    decreases |rows|
  {
    if |rows| > 0 {
      var p := rows[..|rows| - 1];
      var m := Build(ix, p);
      KeysInFirstSeenOrder(ix, p);
      match RowOf(ix, rows[|rows| - 1])
      case None =>
      case Some(b) =>
        assert Build(ix, rows) == OrderedMap.Set(m, b.id, b);
        OrderedMap.KeysAfterSet(m, b.id, b);
    }
  }

  /** Rows written with different capitalization or padding of one id meet in one entry. */
  lemma SameBoothAfterNorm(ix: Columns, rows: seq<seq<string>>, i: nat, j: nat)
    requires i < j < |rows| && KeyOf(ix, rows[i]).Some? && KeyOf(ix, rows[j]).Some?
    requires Norm(RowOf(ix, rows[i]).value.rawId) == Norm(RowOf(ix, rows[j]).value.rawId)
    requires forall l :: j < l < |rows| ==> KeyOf(ix, rows[l]) != KeyOf(ix, rows[j])
    ensures OrderedMap.Get(Build(ix, rows), KeyOf(ix, rows[i]).value) == RowOf(ix, rows[j])
  {
    LastRowWins(ix, rows, j);
  }

  /** Without an id column no row is kept. */
  lemma NoIdColumnNoBooths(text: string)
    requires IdHeader !in ParseLines(text)[0]
    ensures LoadText(text) == []
  {
    var rows := ParseLines(text);
    var ix := ColumnsOf(rows[0]);
    var m := Build(ix, rows[1..]);
    if |m| > 0 {
      KeyPresent(ix, rows[1..], m[0].0);
    }
  }

  /** A header line alone yields no booths. */
  lemma HeaderOnlyNoBooths(text: string)
    requires '\n' !in text
    ensures LoadText(text) == []
  {
    NoNewlineOneLine(text);
  }

  lemma {:induction false} NoNewlineOneLine(text: string)
    requires '\n' !in text
    ensures CountIn(text, {'\n'}) == 0
  {
    if |text| > 0 {
      assert '\n' !in text[1..];
      NoNewlineOneLine(text[1..]);
    }
  }

  lemma EmptyTextNoBooths()
    ensures LoadText("") == []
  {
    assert ParseLines("")[0] == [""];
    NoIdColumnNoBooths("");
  }

  // ---------------------------------------------------------------------------
  // The naive split against the tokenizer, and against encoding.

  function TrimRows(rows: seq<seq<string>>): (r: seq<seq<string>>)
    ensures |r| == |rows| && forall i :: 0 <= i < |rows| ==> r[i] == Records.TrimAll(rows[i])
  {
    seq(|rows|, i requires 0 <= i < |rows| => Records.TrimAll(rows[i]))
  }

  lemma {:induction false} DropCRFixed(s: string)
    requires '\r' !in s
    ensures Csv.DropCR(s) == s
  {
    if |s| > 0 {
      assert s == [s[0]] + s[1..];
      assert s[0] != '\r' && '\r' !in s[1..];
      DropCRFixed(s[1..]);
    }
  }

  /** On text without quotes or carriage returns the naive split reads what the
      edge function's tokenizer reads, up to the trimming of cells. */
  lemma NaiveAgreesWithTokenizer(text: string)
    requires Csv.QuoteFree(text) && '\r' !in text
    ensures ParseLines(text) == TrimRows(Csv.CsvToRows(text))
  {
    Csv.PlainTextIsSplit(text);
    DropCRFixed(text);
  }

  /** The lines of a table whose cells are joined with `,` and its rows with `\n`. */
  function Encode(table: seq<seq<string>>): string {
    Join(seq(|table|, i requires 0 <= i < |table| => Join(table[i], [','])), ['\n'])
  }

  lemma {:induction false} JoinAvoids(parts: seq<string>, c: char, seps: set<char>)
    requires c !in seps && forall i :: 0 <= i < |parts| ==> Avoids(parts[i], seps)
    ensures Avoids(Join(parts, [c]), seps)
    decreases |parts|
  {
    if |parts| > 1 {
      JoinAvoids(parts[1..], c, seps);
    }
  }

  /** Tables of trimmed cells free of `,` and `\n` survive encoding and parsing. */
  lemma ParseEncodedTable(table: seq<seq<string>>)
    requires |table| >= 1
    requires forall i :: 0 <= i < |table| ==> |table[i]| >= 1
    requires forall i, j :: 0 <= i < |table| && 0 <= j < |table[i]| ==> IsTrimmed(table[i][j]) && Avoids(table[i][j], Separators)
    ensures ParseLines(Encode(table)) == table
  {
    var lines := seq(|table|, i requires 0 <= i < |table| => Join(table[i], [',']));
    forall i | 0 <= i < |table|
      ensures Avoids(lines[i], {'\n'})
      ensures SplitBy(lines[i], {','}) == table[i]
      ensures Records.TrimAll(table[i]) == table[i]
    {
      forall j | 0 <= j < |table[i]| ensures Avoids(table[i][j], {'\n'}) && Avoids(table[i][j], {','}) {}
      JoinAvoids(table[i], ',', {'\n'});
      SplitJoin(table[i], ',', {','});
      Records.TrimAllFixed(table[i]);
    }
    SplitJoin(lines, '\n', {'\n'});
  }

  /** Text without a line break is one line. */
  lemma OneLine(s: string)
    requires '\n' !in s
    ensures ParseLines(s) == [Records.TrimAll(SplitBy(s, {','}))]
  {
    NoNewlineOneLine(s);
    JoinSplit(s, '\n');
    var lines := SplitBy(s, {'\n'});
    assert lines == [lines[0]];
  }

  /** A quoted cell with a comma inside splits at the comma, quotes and all, where
      the tokenizer would keep one cell. */
  lemma QuotedCommaSplits(x: string, y: string)
    requires x != "" && y != "" && IsTrimmed(x) && IsTrimmed(y)
    requires Avoids(x, {',', '\n'}) && Avoids(y, {',', '\n'})
    ensures ParseLines("\"" + x + "," + y + "\"") == [["\"" + x, y + "\""]]
  {
    var c0 := "\"" + x;
    var c1 := y + "\"";
    var s := c0 + "," + c1;
    assert "\"" + x + "," + y + "\"" == s;
    QuotedPieces(x, y);
    OneLine(s);
    assert Join([c0, c1], [',']) == s;
    SplitJoin([c0, c1], ',', {','});
    Records.TrimAllFixed([c0, c1]);
  }

  lemma QuotedPieces(x: string, y: string)
    requires x != "" && y != "" && IsTrimmed(x) && IsTrimmed(y)
    requires Avoids(x, {',', '\n'}) && Avoids(y, {',', '\n'})
    ensures var c0 := "\"" + x; var c1 := y + "\"";
      && IsTrimmed(c0) && IsTrimmed(c1)
      && Avoids(c0, {','}) && Avoids(c1, {','})
      && '\n' !in c0 + "," + c1
  {
    var c0 := "\"" + x;
    var c1 := y + "\"";
    assert !IsSpace('"');
    assert c0[0] == '"' && c0[|c0| - 1] == x[|x| - 1];
    assert c1[0] == y[0] && c1[|c1| - 1] == '"';
    assert forall i :: 1 <= i < |c0| ==> c0[i] == x[i - 1];
    assert forall i :: 0 <= i < |y| ==> c1[i] == y[i];
    var s := c0 + "," + c1;
    forall i | 0 <= i < |s| ensures s[i] != '\n' {
      if i < |c0| {
        assert s[i] == c0[i];
      } else if i > |c0| {
        assert s[i] == c1[i - |c0| - 1];
      }
    }
  }

  /** The smallest instance: `"a,b"` reads as the two cells `"a` and `b"`. */
  lemma QuotedCommaExample()
    ensures ParseLines("\"a,b\"") == [["\"a", "b\""]]
  {
    QuotedCommaSplits("a", "b");
    assert "\"" + "a" + "," + "b" + "\"" == "\"a,b\"";
    assert "\"" + "a" == "\"a" && "b" + "\"" == "b\"";
  }
}
