/**
 * From tokenized rows to header-keyed records (`parseCSV`), the field lookup
 * by header aliases (`pick`) and the split of multi-value cells on the
 * vertical-bar family (`SEP`).
 */
module Records {

  import opened Options
  import opened Text
  import Csv

  /** A data row keyed by trimmed header name; every value is trimmed. */
  type Record = map<string, string>

  /** `r[idx] ?? ""`: a missing trailing cell reads as empty. */
  function CellAt(cells: seq<string>, i: nat): string {
    if i < |cells| then cells[i] else ""
  }

  /** `headers[k]` does not occur again later in `headers`. */
  predicate LastOccurrence(headers: seq<string>, k: int)
    requires 0 <= k < |headers|
  {
    forall j :: k < j < |headers| ==> headers[j] != headers[k]
  }

  predicate ValuesTrimmed(rec: Record) {
    forall h :: h in rec ==> IsTrimmed(rec[h])
  }

  /** The assignments `obj[h] = (r[idx] ?? "").trim()` in header order. */
  function BuildRecord(headers: seq<string>, cells: seq<string>): Record
    decreases |headers|
  {
    if |headers| == 0 then map[]
    else
      var n := |headers| - 1;
      BuildRecord(headers[..n], cells)[headers[n] := Trim(CellAt(cells, n))]
  }

  /** Every header becomes a key, a repeated header keeps its last column's value,
      and every value is trimmed. */
  lemma {:induction false} BuildRecordKeys(headers: seq<string>, cells: seq<string>)
    ensures forall h :: h in BuildRecord(headers, cells) <==> h in headers
    ensures forall k :: 0 <= k < |headers| && LastOccurrence(headers, k) ==>
              BuildRecord(headers, cells)[headers[k]] == Trim(CellAt(cells, k))
    ensures ValuesTrimmed(BuildRecord(headers, cells))
    decreases |headers|
  {
    if |headers| > 0 {
      var n := |headers| - 1;
      BuildRecordKeys(headers[..n], cells);
      assert headers == headers[..n] + [headers[n]];
      AssignLast(headers[..n], headers[n], cells, BuildRecord(headers[..n], cells));
    }
  }

  /** One more assignment `obj[h] = …` keeps the key set and the last-column values. */
  lemma AssignLast(init: seq<string>, h: string, cells: seq<string>, prev: Record)
    requires forall x :: x in prev <==> x in init
    requires forall k :: 0 <= k < |init| && LastOccurrence(init, k) ==> prev[init[k]] == Trim(CellAt(cells, k))
    ensures var rec := prev[h := Trim(CellAt(cells, |init|))];
      && (forall x :: x in rec <==> x in init + [h])
      && (forall k :: 0 <= k < |init + [h]| && LastOccurrence(init + [h], k) ==> rec[(init + [h])[k]] == Trim(CellAt(cells, k)))
  {
    var hs := init + [h];
    var rec := prev[h := Trim(CellAt(cells, |init|))];
    forall k | 0 <= k < |hs| && LastOccurrence(hs, k)
      ensures rec[hs[k]] == Trim(CellAt(cells, k))
    {
      if k < |init| {
        assert hs[k] == init[k];
        assert hs[|init|] == h;
        assert LastOccurrence(init, k) by {
          forall j | k < j < |init| ensures init[j] != init[k] {
            assert hs[j] == init[j];
          }
        }
      }
    }
  }

  predicate Distinct(xs: seq<string>) {
    forall i, j :: 0 <= i < j < |xs| ==> xs[i] != xs[j]
  }

  /** `r.every((c) => !c || !c.trim())`: a row of empty or white-space cells. */
  predicate AllBlank(cells: seq<string>) {
    forall i :: 0 <= i < |cells| ==> IsBlank(cells[i])
  }

  function TrimAll(cells: seq<string>): (r: seq<string>)
    ensures |r| == |cells| && forall i :: 0 <= i < |cells| ==> r[i] == Trim(cells[i])
  {
    seq(|cells|, i requires 0 <= i < |cells| => Trim(cells[i]))
  }

  /** The data-row loop of `parseCSV`: blank rows are skipped, the others zipped
      with the headers, in row order. */
  function DataRecords(headers: seq<string>, rows: seq<seq<string>>): (out: seq<Record>)
    ensures |out| <= |rows|
  {
    if |rows| == 0 then []
    else if AllBlank(rows[0]) then DataRecords(headers, rows[1..])
    else [BuildRecord(headers, rows[0])] + DataRecords(headers, rows[1..])
  }

  /** `parseCSV`: the first row, trimmed, is the header row. */
  function ParseCsv(text: string): (out: seq<Record>)
    ensures |out| < |Csv.CsvToRows(text)|
    ensures forall i :: 0 <= i < |out| ==>
              (forall h :: h in out[i] <==> h in TrimAll(Csv.CsvToRows(text)[0])) && ValuesTrimmed(out[i])
  {
    var rows := Csv.CsvToRows(text);
    DataRecordsKeys(TrimAll(rows[0]), rows[1..]);
    DataRecords(TrimAll(rows[0]), rows[1..])
  }

  /** Exactly the header keys, with trimmed values. */
  ghost predicate Keyed(headers: seq<string>, rec: Record) {
    (forall h :: h in rec <==> h in headers) && ValuesTrimmed(rec)
  }

  ghost predicate AllKeyed(headers: seq<string>, out: seq<Record>) {
    forall i :: 0 <= i < |out| ==> Keyed(headers, out[i])
  }

  lemma ConsKeyed(headers: seq<string>, r: Record, rest: seq<Record>)
    requires Keyed(headers, r) && AllKeyed(headers, rest)
    ensures AllKeyed(headers, [r] + rest)
  {
    forall i | 1 <= i < |[r] + rest| ensures Keyed(headers, ([r] + rest)[i]) {
      assert ([r] + rest)[i] == rest[i - 1];
    }
  }

  /** Every record has exactly the header keys and trimmed values. */
  lemma {:induction false} DataRecordsKeys(headers: seq<string>, rows: seq<seq<string>>)
    ensures AllKeyed(headers, DataRecords(headers, rows))
  {
    if |rows| > 0 {
      DataRecordsKeys(headers, rows[1..]);
      if !AllBlank(rows[0]) {
        BuildRecordKeys(headers, rows[0]);
        ConsKeyed(headers, BuildRecord(headers, rows[0]), DataRecords(headers, rows[1..]));
      }
    }
  }

  /** With no blank row, every data row yields exactly one record. */
  lemma DataRecordsNoBlank(headers: seq<string>, rows: seq<seq<string>>)
    requires forall i :: 0 <= i < |rows| ==> !AllBlank(rows[i])
    ensures |DataRecords(headers, rows)| == |rows|
    ensures forall i :: 0 <= i < |rows| ==> DataRecords(headers, rows)[i] == BuildRecord(headers, rows[i])
  {
    DataRecordsCount(headers, rows);
    forall i | 0 <= i < |rows| ensures DataRecords(headers, rows)[i] == BuildRecord(headers, rows[i]) {
      DataRecordAt(headers, rows, i);
    }
  }

  lemma {:induction false} DataRecordsCount(headers: seq<string>, rows: seq<seq<string>>)
    requires forall i :: 0 <= i < |rows| ==> !AllBlank(rows[i])
    ensures |DataRecords(headers, rows)| == |rows|
  {
    if |rows| > 0 {
      NoBlankTail(rows);
      DataRecordsCount(headers, rows[1..]);
    }
  }

  lemma NoBlankTail(rows: seq<seq<string>>)
    requires |rows| > 0 && forall i :: 0 <= i < |rows| ==> !AllBlank(rows[i])
    ensures !AllBlank(rows[0]) && forall i :: 0 <= i < |rows[1..]| ==> !AllBlank(rows[1..][i])
  {
    assert forall i :: 0 <= i < |rows[1..]| ==> rows[1..][i] == rows[i + 1];
  }

  /** A row that is not blank yields the first record. */
  lemma DataRecordsCons(headers: seq<string>, rows: seq<seq<string>>)
    requires |rows| > 0 && !AllBlank(rows[0])
    ensures DataRecords(headers, rows) == [BuildRecord(headers, rows[0])] + DataRecords(headers, rows[1..])
  {
  }

  lemma {:induction false} DataRecordAt(headers: seq<string>, rows: seq<seq<string>>, i: nat)
    requires forall j :: 0 <= j < |rows| ==> !AllBlank(rows[j])
    requires i < |rows|
    ensures i < |DataRecords(headers, rows)| && DataRecords(headers, rows)[i] == BuildRecord(headers, rows[i])
    decreases i
  {
    NoBlankTail(rows);
    DataRecordsCons(headers, rows);
    if i > 0 {
      DataRecordAt(headers, rows[1..], i - 1);
      assert rows[1..][i - 1] == rows[i];
    }
  }

  /** A blank data row contributes nothing. */
  lemma BlankRowSkipped(headers: seq<string>, before: seq<seq<string>>, blank: seq<string>, after: seq<seq<string>>)
    requires AllBlank(blank)
    ensures DataRecords(headers, before + [blank] + after) == DataRecords(headers, before + after)
  {
    if |before| == 0 {
      assert before + [blank] + after == [blank] + after;
      assert ([blank] + after)[1..] == after;
      assert before + after == after;
    } else {
      assert (before + [blank] + after)[1..] == before[1..] + [blank] + after;
      assert (before + after)[1..] == before[1..] + after;
      BlankRowSkipped(headers, before[1..], blank, after);
    }
  }

  lemma TrimAllFixed(xs: seq<string>)
    requires forall k :: 0 <= k < |xs| ==> IsTrimmed(xs[k])
    ensures TrimAll(xs) == xs
  {
    forall k | 0 <= k < |xs| ensures Trim(xs[k]) == xs[k] {
      TrimmedFixed(xs[k]);
    }
  }

  /** Parsing an encoded table reads its first row as the headers and the rest as data. */
  lemma ParseEncoded(headers: seq<string>, data: seq<seq<string>>)
    requires |headers| >= 1 && forall k :: 0 <= k < |headers| ==> IsTrimmed(headers[k])
    requires forall i :: 0 <= i < |data| ==> |data[i]| >= 1
    ensures ParseCsv(Csv.EncodeRows([headers] + data)) == DataRecords(headers, data)
  {
    var table := [headers] + data;
    assert Csv.RowsNonEmpty(table) by {
      assert forall i :: 1 <= i < |table| ==> table[i] == data[i - 1];
    }
    Csv.EncodeRoundTrip(table);
    assert table[0] == headers && table[1..] == data;
    TrimAllFixed(headers);
  }

  /** Under distinct headers each header reads its own column. */
  lemma BuildRecordDistinct(headers: seq<string>, cells: seq<string>, k: nat)
    requires Distinct(headers) && k < |headers| && |cells| == |headers| && IsTrimmed(cells[k])
    ensures headers[k] in BuildRecord(headers, cells) && BuildRecord(headers, cells)[headers[k]] == cells[k]
  {
    BuildRecordKeys(headers, cells);
    assert LastOccurrence(headers, k);
    TrimmedFixed(cells[k]);
  }

  /** A table of trimmed cells under distinct trimmed headers, encoded as CSV and
      parsed again, gives each row back as a record keyed by the headers. */
  lemma TableRoundTrip(headers: seq<string>, data: seq<seq<string>>)
    requires |headers| >= 1 && Distinct(headers)
    requires forall k :: 0 <= k < |headers| ==> IsTrimmed(headers[k])
    requires forall i :: 0 <= i < |data| ==> |data[i]| == |headers| && !AllBlank(data[i])
    requires forall i, k :: 0 <= i < |data| && 0 <= k < |headers| ==> IsTrimmed(data[i][k])
    ensures |ParseCsv(Csv.EncodeRows([headers] + data))| == |data|
    ensures forall i, k :: 0 <= i < |data| && 0 <= k < |headers| ==>
              && headers[k] in ParseCsv(Csv.EncodeRows([headers] + data))[i]
              && ParseCsv(Csv.EncodeRows([headers] + data))[i][headers[k]] == data[i][k]
  {
    ParseEncoded(headers, data);
    DataRecordsNoBlank(headers, data);
    forall i, k | 0 <= i < |data| && 0 <= k < |headers|
      ensures headers[k] in BuildRecord(headers, data[i])
      ensures BuildRecord(headers, data[i])[headers[k]] == data[i][k]
    {
      BuildRecordDistinct(headers, data[i], k);
    }
  }

  // ---------------------------------------------------------------------------
  // Field lookup by header aliases.

  /** The column named by `alias` (compared trimmed) holds a non-blank value.
      Record keys are trimmed headers, so the key that matches is `Trim(alias)`;
      a blank alias finds the key `""`, which `hit ?` then treats as no hit. */
  predicate Hit(row: Record, alias: string) {
    Trim(alias) in row && !IsBlank(row[Trim(alias)]) && Trim(alias) != ""
  }

  /** `aliases[i]` is the first alias with a hit. */
  predicate FirstHit(row: Record, aliases: seq<string>, i: int) {
    0 <= i < |aliases| && Hit(row, aliases[i]) && forall j :: 0 <= j < i ==> !Hit(row, aliases[j])
  }

  /** `pick`: the trimmed value of the first alias, in list order, whose column
      is present and non-blank. */
  function Pick(row: Record, aliases: seq<string>): (r: Option<string>)
    ensures r.None? <==> forall i :: 0 <= i < |aliases| ==> !Hit(row, aliases[i])
    ensures r.Some? ==> r.value != "" && IsTrimmed(r.value)
  {
    if |aliases| == 0 then None
    else
      var key := Trim(aliases[0]);
      if key in row && Trim(row[key]) != "" && key != "" then Some(Trim(row[key]))
      else
        assert forall i :: 1 <= i < |aliases| ==> aliases[i] == aliases[1..][i - 1];
        Pick(row, aliases[1..])
  }

  /** The first alias with a value is the one read: every earlier one is skipped and every later one ignored. */
  lemma {:induction false} PickPrefersEarlier(row: Record, aliases: seq<string>, i: nat)
    requires FirstHit(row, aliases, i)
    ensures Pick(row, aliases) == Some(Trim(row[Trim(aliases[i])]))
    decreases i
  {
    if i > 0 {
      assert !Hit(row, aliases[0]);
      assert FirstHit(row, aliases[1..], i - 1) by {
        forall j | 0 <= j < i - 1 ensures !Hit(row, aliases[1..][j]) {
          assert aliases[1..][j] == aliases[j + 1];
        }
      }
      PickPrefersEarlier(row, aliases[1..], i - 1);
    }
  }

  /** A row that fills only the second spelling of a header is still read
      through it. */
  lemma PickFallbackExample()
    ensures Pick(map["主要CP/角色(自填)" := "A×B"], ["主要CP / 角色(自填)", "主要CP/角色(自填)"]) == Some("A×B")
  {
    var row := map["主要CP/角色(自填)" := "A×B"];
    TrimmedFixed("主要CP / 角色(自填)");
    TrimmedFixed("主要CP/角色(自填)");
    TrimmedFixed("A×B");
    assert "主要CP / 角色(自填)" != "主要CP/角色(自填)";
    assert !Hit(row, "主要CP / 角色(自填)");
    assert Hit(row, "主要CP/角色(自填)");
    PickPrefersEarlier(row, ["主要CP / 角色(自填)", "主要CP/角色(自填)"], 1);
  }

  // ---------------------------------------------------------------------------
  // Multi-value cells.

  /** The `SEP` family: `|`, fullwidth `｜` and box-drawing `│`. */
  const Bars: set<char> := {'|', '\U{FF5C}', '\U{2502}'}

  function TrimEach(xs: seq<string>): (r: seq<string>)
    ensures |r| == |xs| && forall i :: 0 <= i < |xs| ==> r[i] == Trim(xs[i])
  {
    if |xs| == 0 then [] else [Trim(xs[0])] + TrimEach(xs[1..])
  }

  /** `.filter(Boolean)` over strings: the non-empty ones, in order.
      `NonEmptyCounts` gives the multiplicities, and `NonEmptyAppend` with
      `NonEmptyKeeps` the order. */
  function NonEmpty(xs: seq<string>): (r: seq<string>)
    ensures |r| <= |xs|
    ensures forall i :: 0 <= i < |r| ==> r[i] != "" && r[i] in xs
    ensures forall x :: x in r <==> x in xs && x != ""
  {
    if |xs| == 0 then []
    else
      assert xs == [xs[0]] + xs[1..];
      if xs[0] == "" then NonEmpty(xs[1..])
      else [xs[0]] + NonEmpty(xs[1..])
  }

  /** Every non-empty string is kept exactly as often as it occurs, and no empty one is. */
  lemma {:induction false} NonEmptyCounts(xs: seq<string>)
    ensures forall x :: x != "" ==> multiset(NonEmpty(xs))[x] == multiset(xs)[x]
    ensures multiset(NonEmpty(xs))[""] == 0
    decreases |xs|
  {
    if |xs| > 0 {
      NonEmptyCounts(xs[1..]);
      assert xs == [xs[0]] + xs[1..];
    }
  }

  /** Filtering commutes with concatenation, so kept strings stay in input order. */
  lemma {:induction false} NonEmptyAppend(a: seq<string>, b: seq<string>)
    ensures NonEmpty(a + b) == NonEmpty(a) + NonEmpty(b)
    decreases |a|
  {
    if |a| == 0 {
      assert a + b == b;
    } else {
      assert (a + b)[1..] == a[1..] + b;
      NonEmptyAppend(a[1..], b);
    }
  }

  /** `s.split(SEP).map(s => s.trim()).filter(Boolean)`. The source splits on runs
      of bars; the empty pieces a single-bar split adds between adjacent bars are
      dropped by the filter either way. */
  function Tokens(s: string): (toks: seq<string>)
    ensures forall i :: 0 <= i < |toks| ==> toks[i] != "" && IsTrimmed(toks[i]) && Avoids(toks[i], Bars)
  {
    var pieces := SplitBy(s, Bars);
    var trimmed := TrimEach(pieces);
    forall i | 0 <= i < |pieces| ensures Avoids(trimmed[i], Bars) {
      TrimAvoids(pieces[i], Bars);
    }
    NonEmpty(trimmed)
  }

  /** `k ? k.split(SEP)…  : undefined`: an absent cell stays absent, a present one
      may still give an empty list. */
  function SplitField(k: Option<string>): (r: Option<seq<string>>)
    ensures r.None? <==> k.None?
  {
    match k
    case None => None
    case Some(v) => Some(Tokens(v))
  }

  lemma {:induction false} NonEmptyKeeps(xs: seq<string>)
    requires forall i :: 0 <= i < |xs| ==> xs[i] != ""
    ensures NonEmpty(xs) == xs
  {
    if |xs| > 0 {
      NonEmptyKeeps(xs[1..]);
      assert [xs[0]] + xs[1..] == xs;
    }
  }

  /** Tokens joined by `|` split back into the same tokens. */
  lemma TokensRoundTrip(toks: seq<string>)
    requires forall i :: 0 <= i < |toks| ==> toks[i] != "" && IsTrimmed(toks[i]) && Avoids(toks[i], Bars)
    ensures Tokens(Join(toks, "|")) == toks
  {
    if |toks| == 0 {
      assert SplitBy("", Bars) == [""];
    } else {
      SplitJoin(toks, '|', Bars);
      var pieces := SplitBy(Join(toks, "|"), Bars);
      assert pieces == toks;
      TrimEachFixed(toks);
      NonEmptyKeeps(toks);
    }
  }

  /** A cell of bars alone gives no tokens: the filter drops the empty pieces. */
  lemma BarsOnlyExample()
    ensures Tokens("｜") == []
  {
    assert SplitBy("｜", Bars) == ["", ""];
    assert TrimEach(["", ""]) == ["", ""];
    assert NonEmpty(["", ""]) == [];
  }

  lemma TrimEachFixed(xs: seq<string>)
    requires forall i :: 0 <= i < |xs| ==> IsTrimmed(xs[i])
    ensures TrimEach(xs) == xs
  {
    forall i | 0 <= i < |xs| ensures Trim(xs[i]) == xs[i] {
      TrimmedFixed(xs[i]);
    }
  }
}
