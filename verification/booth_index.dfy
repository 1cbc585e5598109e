/**
 * What `normalizeToShape` computes, stated without the loop: every row is
 * attributed to the last booth number at or above it, and each booth is a
 * function of the rows attributed to it.
 */
module BoothIndex {

  import opened Options
  import opened Text
  import opened Records
  import opened Booths
  import OrderedMap

  /** The last explicit booth number among `rows`. */
  function LastExplicit(rows: seq<Record>): Option<string> {
    Latest(rows, ExplicitId)
  }

  /** The last present value of `g` over `xs`. */
  function Latest<X>(xs: seq<X>, g: X -> Option<string>): Option<string> {
    if |xs| == 0 then None
    else
      var n := |xs| - 1;
      if g(xs[n]).Some? then g(xs[n]) else Latest(xs[..n], g)
  }

  /** `xs[i]` has the value `v` and nothing after it has one. */
  predicate LastWith<X>(xs: seq<X>, g: X -> Option<string>, i: int, v: Option<string>) {
    0 <= i < |xs| && g(xs[i]) == v && forall j :: i < j < |xs| ==> g(xs[j]).None?
  }

  predicate AllNone<X>(xs: seq<X>, g: X -> Option<string>) {
    forall i :: 0 <= i < |xs| ==> g(xs[i]).None?
  }

  lemma {:induction false} LatestIsLast<X>(xs: seq<X>, g: X -> Option<string>)
    ensures Latest(xs, g).None? <==> AllNone(xs, g)
    ensures Latest(xs, g).Some? ==> exists i :: LastWith(xs, g, i, Latest(xs, g))
    decreases |xs|
  {
    if |xs| > 0 {
      var n := |xs| - 1;
      var prefix := xs[..n];
      LatestIsLast(prefix, g);
      if g(xs[n]).Some? {
        assert LastWith(xs, g, n, Latest(xs, g));
      } else {
        LatestSkipsNone(xs, g);
        if Latest(prefix, g).Some? {
          var i :| LastWith(prefix, g, i, Latest(prefix, g));
          assert LastWith(xs, g, i, Latest(xs, g)) by {
            assert forall j :: i < j < n ==> prefix[j] == xs[j];
            assert prefix[i] == xs[i];
          }
        }
      }
    }
  }

  /** A last element without a value leaves the presence question to the prefix. */
  lemma LatestSkipsNone<X>(xs: seq<X>, g: X -> Option<string>)
    requires |xs| > 0 && g(xs[|xs| - 1]).None?
    ensures AllNone(xs, g) <==> AllNone(xs[..|xs| - 1], g)
  {
    assert forall i :: 0 <= i < |xs| - 1 ==> xs[..|xs| - 1][i] == xs[i];
  }

  /** The rows that reach a booth, each with the booth number in force for it. */
  function Attributed(rows: seq<Record>): (att: seq<(string, Record)>)
    ensures |att| <= |rows|
  {
    if |rows| == 0 then []
    else
      var rest := Attributed(rows[..|rows| - 1]);
      match LastExplicit(rows)
      case None => rest
      case Some(rawId) => rest + [(rawId, rows[|rows| - 1])]
  }

  /** The attributed rows of the booth with id `k`, in order. */
  function Mine(att: seq<(string, Record)>, k: string): (m: seq<(string, Record)>)
    ensures |m| <= |att|
    ensures forall i :: 0 <= i < |m| ==> Upper(m[i].0) == k
  {
    if |att| == 0 then []
    else
      var rest := Mine(att[..|att| - 1], k);
      if Upper(att[|att| - 1].0) == k then rest + [att[|att| - 1]] else rest
  }

  /** Booth ids in the order their first row appears. */
  function FirstSeen(att: seq<(string, Record)>): seq<string> {
    if |att| == 0 then []
    else
      var rest := FirstSeen(att[..|att| - 1]);
      var k := Upper(att[|att| - 1].0);
      if k in rest then rest else rest + [k]
  }

  /** One value per attributed row. */
  function Column<X>(m: seq<(string, Record)>, f: Record -> X): (xs: seq<X>)
    ensures |xs| == |m| && forall i :: 0 <= i < |m| ==> xs[i] == f(m[i].1)
  {
    seq(|m|, i requires 0 <= i < |m| => f(m[i].1))
  }

  lemma ColumnAppend<X>(m: seq<(string, Record)>, p: (string, Record), f: Record -> X)
    ensures Column(m + [p], f) == Column(m, f) + [f(p.1)]
  {
  }

  function PickOf(aliases: seq<string>): Record -> Option<string> {
    r => Pick(r, aliases)
  }

  function Ident(r: Record): Record {
    r
  }

  /** The work items of the rows that have content, in row order. */
  function ItemsOf(m: seq<(string, Record)>): (its: seq<WorkItem>)
    ensures |its| <= |m|
    ensures forall i :: 0 <= i < |its| ==> HasContent(its[i])
  {
    if |m| == 0 then [] else ItemsOf(m[..|m| - 1]) + Kept(ItemOf(m[|m| - 1].1))
  }

  /** The work item, when it has content. */
  function Kept(it: WorkItem): (its: seq<WorkItem>)
    ensures |its| <= 1 && forall i :: 0 <= i < |its| ==> HasContent(its[i])
  {
    if HasContent(it) then [it] else []
  }

  /** The booth with id `k` as the rows attributed to it determine it. */
  function Reference(att: seq<(string, Record)>, k: string): BoothEntry {
    Summary(Mine(att, k), k)
  }

  /** The booth with id `k` built from its own rows `m`, in order. */
  function Summary(m: seq<(string, Record)>, k: string): BoothEntry {
    BoothEntry(
      k,
      if |m| > 0 then m[0].0 else "",
      FirstSome(Column(m, PickOf(NameAliases))),
      FirstSome(Column(m, PickOf(UrlAliases))),
      FirstSome(Column(m, KeywordsOf)),
      ItemsOf(m),
      Column(m, Ident))
  }

  /** The loop state agrees with the reference for the rows seen so far. */
  predicate Agrees(f: Fold, att: seq<(string, Record)>) {
    OrderedMap.KeysDistinct(f.byId)
    && OrderedMap.Keys(f.byId) == FirstSeen(att)
    && f.order == FirstSeen(att)
    && forall i :: 0 <= i < |f.byId| ==> f.byId[i].1 == Reference(att, f.byId[i].0)
  }

  // ---- Appending one attributed row -----------------------------------------

  lemma MineAppend(att: seq<(string, Record)>, p: (string, Record), k: string)
    ensures Mine(att + [p], k) == Mine(att, k) + if Upper(p.0) == k then [p] else []
  {
    assert (att + [p])[..|att|] == att;
  }

  lemma FirstSeenAppend(att: seq<(string, Record)>, p: (string, Record))
    ensures FirstSeen(att + [p]) == FirstSeen(att) + if Upper(p.0) in FirstSeen(att) then [] else [Upper(p.0)]
  {
    assert (att + [p])[..|att|] == att;
  }

  lemma {:induction false} SeenIffMine(att: seq<(string, Record)>, k: string)
    ensures k in FirstSeen(att) <==> |Mine(att, k)| > 0
    decreases |att|
  {
    if |att| > 0 {
      var prefix := att[..|att| - 1];
      assert att == prefix + [att[|att| - 1]];
      SeenIffMine(prefix, k);
      MineAppend(prefix, att[|att| - 1], k);
      FirstSeenAppend(prefix, att[|att| - 1]);
    }
  }

  lemma FirstSomeAppend<T>(xs: seq<Option<T>>, x: Option<T>)
    ensures FirstSome(xs + [x]) == if FirstSome(xs).Some? then FirstSome(xs) else x
  {
    var ys := xs + [x];
    if FirstSome(xs).Some? {
      var i :| 0 <= i < |xs| && xs[i] == FirstSome(xs) && forall j :: 0 <= j < i ==> xs[j].None?;
      assert ys[i] == xs[i];
      FirstSomeUnique(ys, i);
    } else if x.Some? {
      assert ys[|xs|] == x;
      FirstSomeUnique(ys, |xs|);
    }
  }

  lemma FirstSomeUnique<T>(xs: seq<Option<T>>, i: nat)
    requires i < |xs| && xs[i].Some? && forall j :: 0 <= j < i ==> xs[j].None?
    ensures FirstSome(xs) == xs[i]
  {
  }

  lemma ItemsAppend(m: seq<(string, Record)>, p: (string, Record))
    ensures ItemsOf(m + [p]) == ItemsOf(m) + if HasContent(ItemOf(p.1)) then [ItemOf(p.1)] else []
  {
    assert (m + [p])[..|m|] == m;
  }

  /** The booth a new row reaches is the loop's update of the booth before it. */
  lemma ReferenceStep(att: seq<(string, Record)>, rawId: string, r: Record)
    ensures var k := Upper(rawId);
      Reference(att + [(rawId, r)], k)
      == Attach(if |Mine(att, k)| == 0 then NewBooth(k, rawId, r) else Backfill(Reference(att, k), r), r)
  {
    if |Mine(att, Upper(rawId))| == 0 {
      ReferenceFirstRow(att, rawId, r);
    } else {
      ReferenceLaterRow(att, rawId, r);
    }
  }

  /** A later row of a booth backfills it and is attached. */
  lemma ReferenceLaterRow(att: seq<(string, Record)>, rawId: string, r: Record)
    requires |Mine(att, Upper(rawId))| > 0
    ensures Reference(att + [(rawId, r)], Upper(rawId)) == Attach(Backfill(Reference(att, Upper(rawId)), r), r)
  {
    MineAppend(att, (rawId, r), Upper(rawId));
    SummaryLaterRow(Mine(att, Upper(rawId)), Upper(rawId), (rawId, r));
  }

  lemma SummaryLaterRow(m: seq<(string, Record)>, k: string, p: (string, Record))
    requires |m| > 0
    ensures Summary(m + [p], k) == Attach(Backfill(Summary(m, k), p.1), p.1)
  {
    ReferenceColumns(m, p);
    assert (m + [p])[0] == m[0];
  }

  /** The first row of a booth gives exactly a new booth with that row attached. */
  lemma ReferenceFirstRow(att: seq<(string, Record)>, rawId: string, r: Record)
    requires |Mine(att, Upper(rawId))| == 0
    ensures Reference(att + [(rawId, r)], Upper(rawId)) == Attach(NewBooth(Upper(rawId), rawId, r), r)
  {
    MineAppend(att, (rawId, r), Upper(rawId));
    assert Mine(att, Upper(rawId)) + [(rawId, r)] == [(rawId, r)];
    SummaryFirstRow(Upper(rawId), (rawId, r));
  }

  lemma SummaryFirstRow(k: string, p: (string, Record))
    ensures Summary([p], k) == Attach(NewBooth(k, p.0, p.1), p.1)
  {
    ReferenceColumns([], p);
    assert [] + [p] == [p];
  }

  /** Each column of one more row extends the column by that row's value. */
  lemma ReferenceColumns(m: seq<(string, Record)>, p: (string, Record))
    ensures FirstSome(Column(m + [p], PickOf(NameAliases))) == if FirstSome(Column(m, PickOf(NameAliases))).Some? then FirstSome(Column(m, PickOf(NameAliases))) else Pick(p.1, NameAliases)
    ensures FirstSome(Column(m + [p], PickOf(UrlAliases))) == if FirstSome(Column(m, PickOf(UrlAliases))).Some? then FirstSome(Column(m, PickOf(UrlAliases))) else Pick(p.1, UrlAliases)
    ensures FirstSome(Column(m + [p], KeywordsOf)) == if FirstSome(Column(m, KeywordsOf)).Some? then FirstSome(Column(m, KeywordsOf)) else KeywordsOf(p.1)
    ensures Column(m + [p], Ident) == Column(m, Ident) + [p.1]
    ensures ItemsOf(m + [p]) == ItemsOf(m) + if HasContent(ItemOf(p.1)) then [ItemOf(p.1)] else []
  {
    ColumnAppend(m, p, PickOf(NameAliases));
    ColumnAppend(m, p, PickOf(UrlAliases));
    ColumnAppend(m, p, KeywordsOf);
    ColumnAppend(m, p, Ident);
    FirstSomeAppend(Column(m, PickOf(NameAliases)), Pick(p.1, NameAliases));
    FirstSomeAppend(Column(m, PickOf(UrlAliases)), Pick(p.1, UrlAliases));
    FirstSomeAppend(Column(m, KeywordsOf), KeywordsOf(p.1));
    ItemsAppend(m, p);
  }

  lemma ReferenceOther(att: seq<(string, Record)>, p: (string, Record), k: string)
    requires Upper(p.0) != k
    ensures Reference(att + [p], k) == Reference(att, k)
  {
    MineAppend(att, p, k);
  }

  lemma KeyPresence(byId: seq<(string, BoothEntry)>, k: string)
    ensures k in OrderedMap.Keys(byId) <==> OrderedMap.Get(byId, k).Some?
  {
    if OrderedMap.Get(byId, k).Some? {
      var i :| 0 <= i < |byId| && byId[i].0 == k;
      assert OrderedMap.Keys(byId)[i] == k;
    }
  }

  /** Setting the reached booth keeps every entry equal to its reference. */
  lemma EntriesAgree(byId: seq<(string, BoothEntry)>, att: seq<(string, Record)>, p: (string, Record), v: BoothEntry)
    requires OrderedMap.KeysDistinct(byId)
    requires forall i :: 0 <= i < |byId| ==> byId[i].1 == Reference(att, byId[i].0)
    requires v == Reference(att + [p], Upper(p.0))
    ensures var byId' := OrderedMap.Set(byId, Upper(p.0), v);
      forall i :: 0 <= i < |byId'| ==> byId'[i].1 == Reference(att + [p], byId'[i].0)
  {
    var k := Upper(p.0);
    var byId' := OrderedMap.Set(byId, k, v);
    forall i | 0 <= i < |byId'|
      ensures byId'[i].1 == Reference(att + [p], byId'[i].0)
    {
      if i < |byId| && byId[i].0 != k {
        assert byId'[i] == byId[i];
        ReferenceOther(att, p, byId[i].0);
      }
    }
  }

  lemma KeysFollowFirstSeen(byId: seq<(string, BoothEntry)>, att: seq<(string, Record)>, p: (string, Record), v: BoothEntry)
    requires OrderedMap.KeysDistinct(byId) && OrderedMap.Keys(byId) == FirstSeen(att)
    ensures OrderedMap.Keys(OrderedMap.Set(byId, Upper(p.0), v)) == FirstSeen(att + [p])
  {
    FirstSeenAppend(att, p);
    OrderedMap.KeysAfterSet(byId, Upper(p.0), v);
  }

  /** The booth a row reaches, after the loop's update, is the reference booth. */
  lemma BoothReached(f: Fold, att: seq<(string, Record)>, rawId: string, r: Record)
    requires Agrees(f, att)
    ensures var k := Upper(rawId);
      var b := match OrderedMap.Get(f.byId, k)
        case None => NewBooth(k, rawId, r)
        case Some(b) => Backfill(b, r);
      Attach(b, r) == Reference(att + [(rawId, r)], k)
  {
    var k := Upper(rawId);
    SeenIffMine(att, k);
    ReferenceStep(att, rawId, r);
    KeyPresence(f.byId, k);
    if OrderedMap.Get(f.byId, k).Some? {
      var i :| 0 <= i < |f.byId| && f.byId[i].0 == k;
      assert OrderedMap.Get(f.byId, k).value == Reference(att, k);
    }
  }

  /** One step of the loop keeps the loop state in agreement with the reference. */
  lemma StepAgrees(f: Fold, att: seq<(string, Record)>, rawId: string, r: Record)
    requires Agrees(f, att)
    ensures var k := Upper(rawId);
      Agrees(Fold(AddRow(f.byId, rawId, r), if OrderedMap.Get(f.byId, k).None? then f.order + [k] else f.order, Some(rawId)),
             att + [(rawId, r)])
  {
    var k := Upper(rawId);
    var p := (rawId, r);
    var b := match OrderedMap.Get(f.byId, k)
      case None => NewBooth(k, rawId, r)
      case Some(b) => Backfill(b, r);
    BoothReached(f, att, rawId, r);
    KeysFollowFirstSeen(f.byId, att, p, Attach(b, r));
    EntriesAgree(f.byId, att, p, Attach(b, r));
    FirstSeenAppend(att, p);
    SeenIffMine(att, k);
    KeyPresence(f.byId, k);
  }

  // ---- The whole loop -------------------------------------------------------

  /** The loop over all rows agrees with the reference, and `lastRawId` is the last explicit number. */
  lemma {:induction false} RunAgrees(rows: seq<Record>)
    ensures Run(rows).lastRawId == LastExplicit(rows)
    ensures Agrees(Run(rows), Attributed(rows))
    decreases |rows|
  {
    if |rows| > 0 {
      var prefix := rows[..|rows| - 1];
      var r := rows[|rows| - 1];
      RunAgrees(prefix);
      match LastExplicit(rows)
      case None =>
      case Some(rawId) =>
        StepAgrees(Run(prefix), Attributed(prefix), rawId, r);
    }
  }

  // ---- Consequences for the response ---------------------------------------

  /** `lastRawId` is the number of the latest row that has one. */
  lemma LastExplicitIsLatest(rows: seq<Record>)
    ensures LastExplicit(rows).None? <==> forall i :: 0 <= i < |rows| ==> ExplicitId(rows[i]).None?
    ensures LastExplicit(rows).Some? ==> exists i :: LastWith(rows, ExplicitId, i, LastExplicit(rows))
  {
    LatestIsLast(rows, ExplicitId);
  }

  /** Each booth of the response is the reference booth of its id, and only ids with rows have one. */
  lemma BoothLookup(rows: seq<Record>, k: string)
    ensures var att := Attributed(rows);
      OrderedMap.Get(NormalizeRows(rows).byId, k) == if |Mine(att, k)| > 0 then Some(Reference(att, k)) else None
  {
    RunAgrees(rows);
    AgreesGet(Run(rows), Attributed(rows), k);
  }

  lemma AgreesGet(f: Fold, att: seq<(string, Record)>, k: string)
    requires Agrees(f, att)
    ensures OrderedMap.Get(f.byId, k) == if |Mine(att, k)| > 0 then Some(Reference(att, k)) else None
  {
    SeenIffMine(att, k);
    KeyPresence(f.byId, k);
    if OrderedMap.Get(f.byId, k).Some? {
      var i :| 0 <= i < |f.byId| && f.byId[i].0 == k;
    }
  }

  /** Ids are distinct, each key is its booth's upper-cased number, and each booth holds a row. */
  predicate Shaped(byId: seq<(string, BoothEntry)>) {
    OrderedMap.KeysDistinct(byId)
    && forall i :: 0 <= i < |byId| ==>
      byId[i].0 == byId[i].1.id && byId[i].1.id == Upper(byId[i].1.rawId)
      && |byId[i].1.rawRows| >= 1 && |byId[i].1.items| <= |byId[i].1.rawRows|
  }

  /** The normalized table has that shape, whatever the rows. */
  lemma ShapeWellFormed(rows: seq<Record>)
    ensures Shaped(NormalizeRows(rows).byId)
  {
    RunAgrees(rows);
    AgreesShape(Run(rows), Attributed(rows));
  }

  /** The shape facts hold of any loop state that agrees with the reference. */
  lemma AgreesShape(f: Fold, att: seq<(string, Record)>)
    requires Agrees(f, att)
    ensures Shaped(f.byId)
  {
    var byId := f.byId;
    forall i | 0 <= i < |byId|
      ensures byId[i].0 == byId[i].1.id && byId[i].1.id == Upper(byId[i].1.rawId)
      ensures |byId[i].1.rawRows| >= 1 && |byId[i].1.items| <= |byId[i].1.rawRows|
    {
      var k := byId[i].0;
      assert OrderedMap.Keys(byId)[i] == k;
      SeenIffMine(att, k);
      SummaryShape(Mine(att, k), k);
    }
  }

  /** A booth built from at least one of its own rows is keyed by its upper-cased number and keeps its rows. */
  lemma SummaryShape(m: seq<(string, Record)>, k: string)
    requires |m| > 0 && forall i :: 0 <= i < |m| ==> Upper(m[i].0) == k
    ensures Summary(m, k).id == k && Upper(Summary(m, k).rawId) == k
    ensures |Summary(m, k).rawRows| == |m| >= 1 && |Summary(m, k).items| <= |m|
  {
    assert Summary(m, k).rawId == m[0].0;
  }

  lemma {:induction false} LookupsPrefix(byId: seq<(string, BoothEntry)>, n: nat)
    requires OrderedMap.KeysDistinct(byId) && n <= |byId|
    ensures Lookups(byId, OrderedMap.Keys(byId)[..n]) == OrderedMap.Values(byId)[..n]
  {
    if n > 0 {
      var ks := OrderedMap.Keys(byId)[..n];
      assert ks[..n - 1] == OrderedMap.Keys(byId)[..n - 1];
      LookupsPrefix(byId, n - 1);
      assert OrderedMap.Get(byId, ks[n - 1]) == Some(byId[n - 1].1);
      assert OrderedMap.Values(byId)[..n] == OrderedMap.Values(byId)[..n - 1] + [byId[n - 1].1];
    }
  }

  /** `all` lists the same booths as `byId`, in the same order. */
  lemma AllMatchesById(rows: seq<Record>)
    ensures NormalizeRows(rows).all == OrderedMap.Values(NormalizeRows(rows).byId)
  {
    RunAgrees(rows);
    LookupsAll(Run(rows).byId);
  }

  /** `normalizeToShape` on CSV text: the booths of the parsed records, each the
      reference booth of its rows, listed in `all` in table order. */
  lemma ShapeOfText(text: string, k: string)
    ensures var att := Attributed(ParseCsv(text));
      OrderedMap.Get(NormalizeToShape(text).byId, k) == if |Mine(att, k)| > 0 then Some(Reference(att, k)) else None
    ensures NormalizeToShape(text).all == OrderedMap.Values(NormalizeToShape(text).byId)
    ensures Shaped(NormalizeToShape(text).byId)
  {
    var rows := ParseCsv(text);
    BoothLookup(rows, k);
    AllMatchesById(rows);
    ShapeWellFormed(rows);
  }

  /** Looking up every key in key order gives the values in order. */
  lemma LookupsAll(byId: seq<(string, BoothEntry)>)
    requires OrderedMap.KeysDistinct(byId)
    ensures Lookups(byId, OrderedMap.Keys(byId)) == OrderedMap.Values(byId)
  {
    LookupsPrefix(byId, |byId|);
    assert OrderedMap.Keys(byId)[..|byId|] == OrderedMap.Keys(byId);
    assert OrderedMap.Values(byId)[..|byId|] == OrderedMap.Values(byId);
  }

  /** A row with no booth number before any numbered row changes nothing. */
  lemma OrphanRowSkipped(rows: seq<Record>, r: Record)
    requires LastExplicit(rows).None? && ExplicitId(r).None?
    ensures NormalizeRows(rows + [r]) == NormalizeRows(rows)
  {
    RunAgrees(rows);
    assert (rows + [r])[..|rows|] == rows;
  }

  /** A row with no booth number joins the booth of the latest numbered row. */
  lemma ContinuationJoins(rows: seq<Record>, r: Record, rawId: string)
    requires LastExplicit(rows) == Some(rawId) && ExplicitId(r).None?
    ensures var b := OrderedMap.Get(NormalizeRows(rows + [r]).byId, Upper(rawId));
      b.Some? && |b.value.rawRows| >= 1 && b.value.rawRows[|b.value.rawRows| - 1] == r
  {
    var rows' := rows + [r];
    assert rows'[..|rows|] == rows;
    var att := Attributed(rows);
    assert Attributed(rows') == att + [(rawId, r)];
    MineAppend(att, (rawId, r), Upper(rawId));
    BoothLookup(rows', Upper(rawId));
  }

  /** What a later row may do to a booth: fill what is absent and append, never overwrite. */
  predicate Extends(b: BoothEntry, b': BoothEntry) {
    b'.id == b.id && b'.rawId == b.rawId
    && (b.name.Some? ==> b'.name == b.name)
    && (b.url.Some? ==> b'.url == b.url)
    && (b.keywords.Some? ==> b'.keywords == b.keywords)
    && b.items <= b'.items && b.rawRows <= b'.rawRows
  }

  lemma ReferenceGrows(att: seq<(string, Record)>, p: (string, Record), k: string)
    requires |Mine(att, k)| > 0
    ensures |Mine(att + [p], k)| > 0 && Extends(Reference(att, k), Reference(att + [p], k))
  {
    MineAppend(att, p, k);
    if Upper(p.0) == k {
      ReferenceStep(att, p.0, p.1);
      assert p == (p.0, p.1);
    } else {
      ReferenceOther(att, p, k);
    }
  }

  lemma ExtendsTransitive(b0: BoothEntry, b1: BoothEntry, b2: BoothEntry)
    requires Extends(b0, b1) && Extends(b1, b2)
    ensures Extends(b0, b2)
  {
  }

  lemma AttributedSnoc(rows: seq<Record>, r: Record)
    ensures Attributed(rows + [r])
      == Attributed(rows) + match LastExplicit(rows + [r]) case None => [] case Some(rawId) => [(rawId, r)]
  {
    assert (rows + [r])[..|rows|] == rows;
  }

  lemma {:induction false} AttributedGrows(rows: seq<Record>, more: seq<Record>, k: string)
    requires |Mine(Attributed(rows), k)| > 0
    ensures |Mine(Attributed(rows + more), k)| > 0
    ensures Extends(Reference(Attributed(rows), k), Reference(Attributed(rows + more), k))
  {
    AttributedPrefix(rows, more);
    GrowsFromPrefix(Attributed(rows), Attributed(rows + more), k);
  }

  lemma GrowsFromPrefix(att: seq<(string, Record)>, att': seq<(string, Record)>, k: string)
    requires |att| <= |att'| && att'[..|att|] == att && |Mine(att, k)| > 0
    ensures |Mine(att', k)| > 0 && Extends(Reference(att, k), Reference(att', k))
  {
    assert att' == att + att'[|att|..];
    ReferenceGrowsMany(att, att'[|att|..], k);
  }

  /** Attributing more rows only appends to the attribution of the earlier ones. */
  lemma {:induction false} AttributedPrefix(rows: seq<Record>, more: seq<Record>)
    ensures |Attributed(rows)| <= |Attributed(rows + more)|
    ensures Attributed(rows + more)[..|Attributed(rows)|] == Attributed(rows)
    decreases |more|
  {
    if |more| == 0 {
      assert rows + more == rows;
    } else {
      var n := |more| - 1;
      var mid := rows + more[..n];
      assert rows + more == mid + [more[n]];
      AttributedPrefix(rows, more[..n]);
      AttributedSnoc(mid, more[n]);
    }
  }

  /** Any number of further attributed rows only extend a booth that has one. */
  lemma {:induction false} ReferenceGrowsMany(att: seq<(string, Record)>, extra: seq<(string, Record)>, k: string)
    requires |Mine(att, k)| > 0
    ensures |Mine(att + extra, k)| > 0 && Extends(Reference(att, k), Reference(att + extra, k))
    decreases |extra|
  {
    if |extra| == 0 {
      assert att + extra == att;
    } else {
      var n := |extra| - 1;
      var mid := att + extra[..n];
      assert att + extra == mid + [extra[n]];
      ReferenceGrowsMany(att, extra[..n], k);
      ReferenceGrows(mid, extra[n], k);
      ExtendsTransitive(Reference(att, k), Reference(mid, k), Reference(mid + [extra[n]], k));
    }
  }

  /** Rows appended later never overwrite a booth's number, name, link, keywords, items or rows. */
  lemma EarlierValuesKept(rows: seq<Record>, more: seq<Record>, k: string)
    requires OrderedMap.Get(NormalizeRows(rows).byId, k).Some?
    ensures var b' := OrderedMap.Get(NormalizeRows(rows + more).byId, k);
      b'.Some? && Extends(OrderedMap.Get(NormalizeRows(rows).byId, k).value, b'.value)
  {
    BoothLookup(rows, k);
    BoothLookup(rows + more, k);
    AttributedGrows(rows, more, k);
  }
}
