/**
 * `normalizeToShape`: sheet records grouped into booths. A row without a
 * booth number continues the booth of the last row that had one; the first
 * row of a booth fixes its display number, later rows fill in a name, link
 * or keyword list that is still missing, and every row with any work-item
 * field adds a work item.
 */
module Booths {

  import opened Options
  import opened Text
  import opened Records
  import Price
  import OrderedMap

  // Column aliases, tried in order by `Pick`.
  const IdAliases: seq<string> := ["攤位編號"]
  const NameAliases: seq<string> := ["社團名稱"]
  const UrlAliases: seq<string> := ["連結"]
  const KeywordAliases: seq<string> := ["Default攤位商品關鍵字(檢索用途)", "預設攤位商品關鍵字(檢索用途)", "關鍵字"]
  const ThemeAliases: seq<string> := ["創作主題"]
  const TagAliases: seq<string> := ["主題標籤", "主題TAG"]
  const CpAliases: seq<string> := ["主要CP / 角色(自填)", "主要CP/角色(自填)", "主要CP / 角色", "主要CP/角色"]
  const TitleAliases: seq<string> := ["品名(自填)", "品名"]
  const R18Aliases: seq<string> := ["是否為R18"]
  const AuthorAliases: seq<string> := ["作者(自填)", "作者"]
  const ProductTypeAliases: seq<string> := ["商品類別"]
  const NewOrOldAliases: seq<string> := ["新品/既品"]
  const PriceAliases: seq<string> := ["售價(自填數字)", "售價"]
  const ActionTypeAliases: seq<string> := ["預定表單 / 宣傳資訊", "預定表單/宣傳資訊"]
  const ActionUrlAliases: seq<string> := ["關聯連結(填一筆)", "關聯連結"]

  datatype WorkItem = WorkItem(
    creationTheme: Option<string>,
    themeTags: Option<seq<string>>,
    cpChars: Option<string>,
    bookTitle: Option<string>,
    isR18: Option<bool>,
    author: Option<string>,
    productType: Option<string>,
    isNewOrOld: Option<string>,
    priceRaw: Option<string>,
    priceNum: Option<real>,
    actionType: Option<string>,
    actionUrl: Option<string>,
    raw: Record)

  datatype BoothEntry = BoothEntry(
    id: string,
    rawId: string,
    name: Option<string>,
    url: Option<string>,
    keywords: Option<seq<string>>,
    items: seq<WorkItem>,
    rawRows: seq<Record>)

  /** The response body: `byId` as `[id, booth]` pairs and `all` in first-seen order. */
  datatype Shape = Shape(byId: seq<(string, BoothEntry)>, all: seq<BoothEntry>)

  /** `/r-?18|^18$|是|yes|true/i`: case folding applies to the Latin letters only. */
  predicate IsR18Text(s: string) {
    var l := Lower(s);
    Contains(l, "r18") || Contains(l, "r-18") || s == "18" || Contains(s, "是")
    || Contains(l, "yes") || Contains(l, "true")
  }

  function R18Flag(cell: Option<string>): (r: Option<bool>)
    ensures r.Some? <==> cell.Some?
    ensures r == Some(true) <==> cell.Some? && IsR18Text(cell.value)
  {
    match cell
    case None => None
    case Some(s) => Some(IsR18Text(s))
  }

  /** The `i` flag: the flag does not depend on the letter case of the cell. */
  lemma R18IgnoresCase(s: string)
    ensures R18Flag(Some(Upper(s))) == R18Flag(Some(s))
    ensures R18Flag(Some(Lower(s))) == R18Flag(Some(s))
  {
    UpperFolds(s);
    LowerFolds(s);
    UpperKeepsNoLetters(s, "18");
    UpperKeepsNoLetters(s, "是");
    LowerKeepsNoLetters(s, "18");
    LowerKeepsNoLetters(s, "是");
  }

  /** `r-?18` matches anywhere, `^18$` only the whole cell, and any other text is false. */
  lemma R18Examples()
    ensures R18Flag(Some("R-18")) == Some(true)
    ensures R18Flag(Some("是")) == Some(true)
    ensures R18Flag(Some("18")) == Some(true)
    ensures R18Flag(Some("否")) == Some(false)
  {
    assert OccursAt(Lower("R-18"), "r-18", 0);
    assert OccursAt("是", "是", 0);
    NoMatchIn("否");
  }

  /** A one-character cell other than the listed ones contains none of the patterns. */
  lemma NoMatchIn(s: string)
    requires |s| == 1 && s != "是" && !IsUpperLetter(s[0])
    ensures !IsR18Text(s)
  {
    assert Lower(s) == s;
    forall n | n in ["r18", "r-18", "yes", "true"] ensures !Contains(s, n) {
    }
  }

  /** The work item a record describes. */
  function ItemOf(r: Record): (it: WorkItem)
    ensures it.raw == r
    ensures it.priceRaw.None? ==> it.priceNum.None?
    ensures it.isR18.Some? <==> Pick(r, R18Aliases).Some?
  {
    var priceRaw := Pick(r, PriceAliases);
    WorkItem(
      Pick(r, ThemeAliases),
      SplitField(Pick(r, TagAliases)),
      Pick(r, CpAliases),
      Pick(r, TitleAliases),
      R18Flag(Pick(r, R18Aliases)),
      Pick(r, AuthorAliases),
      Pick(r, ProductTypeAliases),
      Pick(r, NewOrOldAliases),
      priceRaw,
      Price.PriceNum(priceRaw),
      Pick(r, ActionTypeAliases),
      Pick(r, ActionUrlAliases),
      r)
  }

  /** `hasContent`: some work-item field is present; an empty tag list does not count. */
  predicate HasContent(it: WorkItem) {
    it.creationTheme.Some? || (it.themeTags.Some? && |it.themeTags.value| > 0)
    || it.cpChars.Some? || it.bookTitle.Some? || it.isR18.Some? || it.author.Some?
    || it.productType.Some? || it.isNewOrOld.Some? || it.priceRaw.Some?
    || it.actionType.Some? || it.actionUrl.Some?
  }

  /** The item with the corrected price reading: a grouping comma is part of the
      number. `ItemOf` keeps the code's reading, where the comma ends it. */
  function ItemOfCorrected(r: Record): (it: WorkItem)
    ensures it.priceRaw == ItemOf(r).priceRaw
  {
    var it := ItemOf(r);
    it.(priceNum := Price.GroupedPriceNum(it.priceRaw))
  }

  /** The two readings give the same item unless the price text has a comma. */
  lemma ItemReadingsAgree(r: Record)
    requires Pick(r, PriceAliases).Some? ==> ',' !in Pick(r, PriceAliases).value
    ensures ItemOfCorrected(r) == ItemOf(r)
  {
    var p := Pick(r, PriceAliases);
    if p.Some? {
      Price.CommaFreeAgrees(p.value);
    }
  }

  /** A grouped price: the code stores 1, the corrected reading 1250. */
  lemma GroupedItemExample()
    ensures ItemOf(map["售價" := "1,250元"]).priceNum == Some(1.0)
    ensures ItemOfCorrected(map["售價" := "1,250元"]).priceNum == Some(1250.0)
  {
    var r := map["售價" := "1,250元"];
    PriceCell(r, "1,250元");
    ItemPrices(r);
    Price.GroupedPriceCorrected();
    Price.GroupedPriceAsWritten();
  }

  /** `priceRaw` alone is content, even when it holds no number. */
  lemma PriceTextIsContent()
    ensures HasContent(ItemOf(map["售價" := "洽詢"]))
  {
    var r := map["售價" := "洽詢"];
    PriceCell(r, "洽詢");
    ItemPrices(r);
  }

  /** Both items read their price from the price cell. */
  lemma ItemPrices(r: Record)
    ensures ItemOf(r).priceRaw == ItemOfCorrected(r).priceRaw == Pick(r, PriceAliases)
    ensures ItemOf(r).priceNum == Price.PriceNum(Pick(r, PriceAliases))
    ensures ItemOfCorrected(r).priceNum == Price.GroupedPriceNum(Pick(r, PriceAliases))
  {
  }

  /** A record holding only the second price header reads that cell. */
  lemma PriceCell(r: Record, v: string)
    requires r == map["售價" := v] && v != "" && IsTrimmed(v)
    ensures Pick(r, PriceAliases) == Some(v)
  {
    TrimmedFixed("售價(自填數字)");
    TrimmedFixed("售價");
    TrimmedFixed(v);
    assert !Hit(r, PriceAliases[0]);
    assert Hit(r, PriceAliases[1]);
    PickPrefersEarlier(r, PriceAliases, 1);
  }

  function KeywordsOf(r: Record): Option<seq<string>> {
    SplitField(Pick(r, KeywordAliases))
  }

  /** The booth a record opens. */
  function NewBooth(id: string, rawId: string, r: Record): (b: BoothEntry)
    ensures b.id == id && b.rawId == rawId && b.items == [] && b.rawRows == []
  {
    BoothEntry(id, rawId, Pick(r, NameAliases), Pick(r, UrlAliases), KeywordsOf(r), [], [])
  }

  /** `||=` on name and link, and keywords taken only while still absent. */
  function Backfill(b: BoothEntry, r: Record): (b': BoothEntry)
    ensures b'.id == b.id && b'.rawId == b.rawId && b'.items == b.items && b'.rawRows == b.rawRows
    ensures b.name.Some? ==> b'.name == b.name
    ensures b.url.Some? ==> b'.url == b.url
    ensures b.keywords.Some? ==> b'.keywords == b.keywords
  {
    b.(name := if b.name.Some? then b.name else Pick(r, NameAliases),
       url := if b.url.Some? then b.url else Pick(r, UrlAliases),
       keywords := if b.keywords.Some? then b.keywords else KeywordsOf(r))
  }

  /** The row is kept, and becomes a work item when it has content. */
  function Attach(b: BoothEntry, r: Record): (b': BoothEntry)
    ensures b'.id == b.id && b'.rawId == b.rawId && b'.name == b.name && b'.url == b.url && b'.keywords == b.keywords
    ensures b'.rawRows == b.rawRows + [r]
    ensures b'.items == b.items + (if HasContent(ItemOf(r)) then [ItemOf(r)] else [])
  {
    var it := ItemOf(r);
    b.(items := b.items + (if HasContent(it) then [it] else []), rawRows := b.rawRows + [r])
  }

  /** The booth table after one row attributed to the booth numbered `rawId`. */
  function AddRow(byId: seq<(string, BoothEntry)>, rawId: string, r: Record): seq<(string, BoothEntry)> {
    var id := Upper(rawId);
    var b := match OrderedMap.Get(byId, id)
      case None => NewBooth(id, rawId, r)
      case Some(b) => Backfill(b, r);
    OrderedMap.Set(byId, id, Attach(b, r))
  }

  /** The loop state of `rows.forEach`: the map, the `all` list (as ids) and `lastRawId`. */
  datatype Fold = Fold(byId: seq<(string, BoothEntry)>, order: seq<string>, lastRawId: Option<string>)

  function ExplicitId(r: Record): Option<string> {
    Pick(r, IdAliases)
  }

  /** One iteration: a row with no number and no earlier number is skipped. */
  function Step(f: Fold, r: Record): (f': Fold)
    ensures ExplicitId(r).Some? ==> f'.lastRawId == ExplicitId(r)
    ensures ExplicitId(r).None? ==> f'.lastRawId == f.lastRawId
  {
    var eff := if ExplicitId(r).Some? then ExplicitId(r) else f.lastRawId;
    match eff
    case None => f
    case Some(rawId) =>
      var id := Upper(rawId);
      var order := if OrderedMap.Get(f.byId, id).None? then f.order + [id] else f.order;
      Fold(AddRow(f.byId, rawId, r), order, eff)
  }

  function Run(rows: seq<Record>): Fold {
    if |rows| == 0 then Fold([], [], None) else Step(Run(rows[..|rows| - 1]), rows[|rows| - 1])
  }

  /** The `all` list: the booths looked up by the ids in creation order. */
  function Lookups(byId: seq<(string, BoothEntry)>, ids: seq<string>): seq<BoothEntry> {
    if |ids| == 0 then []
    else
      var rest := Lookups(byId, ids[..|ids| - 1]);
      match OrderedMap.Get(byId, ids[|ids| - 1])
      case None => rest
      case Some(b) => rest + [b]
  }

  function NormalizeRows(rows: seq<Record>): Shape {
    var f := Run(rows);
    Shape(f.byId, Lookups(f.byId, f.order))
  }

  function NormalizeToShape(text: string): Shape {
    NormalizeRows(ParseCsv(text))
  }
}
