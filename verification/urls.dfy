/**
 * Source URL rewriting: a publish-to-web link becomes its CSV export, and a
 * spreadsheet edit link becomes a live CSV query. The platform's `URL`
 * parser and serializer are a codec supplied by the caller.
 */
module Urls {

  import opened Options
  import opened Text
  import OrderedMap

  /** `URLSearchParams`: name/value pairs in order, names may repeat. */
  type Params = seq<(string, string)>

  /** A parsed URL; everything but the path and the query is kept opaque. */
  datatype Url = Url(origin: string, pathname: string, params: Params, hash: string)

  /** `new URL(s)` (`None` when it throws) and `u.toString()`. */
  datatype UrlCodec = UrlCodec(parse: string -> Option<Url>, show: Url -> string)

  /** Serializing and re-parsing gives back the same URL. */
  ghost predicate Faithful(c: UrlCodec) {
    forall u :: c.parse(c.show(u)) == Some(u)
  }

  predicate Has(ps: Params, k: string) {
    exists i | 0 <= i < |ps| :: ps[i].0 == k
  }

  /** `params.get(k)`: the first value under `k`. */
  function Get(ps: Params, k: string): Option<string> {
    OrderedMap.Get(ps, k)
  }

  /** Every pair named `k` removed. */
  function Drop(ps: Params, k: string): (r: Params)
    ensures forall i :: 0 <= i < |r| ==> r[i].0 != k
    ensures forall k' :: k' != k ==> Get(r, k') == Get(ps, k')
    ensures forall k' :: k' != k ==> (Has(r, k') <==> Has(ps, k'))
  {
    if |ps| == 0 then []
    else
      var rest := Drop(ps[1..], k);
      assert forall k' :: Has(ps, k') <==> ps[0].0 == k' || Has(ps[1..], k') by {
        forall k' ensures Has(ps, k') <==> ps[0].0 == k' || Has(ps[1..], k') {
          if Has(ps, k') && ps[0].0 != k' {
            var i :| 0 <= i < |ps| && ps[i].0 == k';
            assert ps[1..][i - 1].0 == k';
          }
          if Has(ps[1..], k') {
            var i :| 0 <= i < |ps[1..]| && ps[1..][i].0 == k';
            assert ps[i + 1].0 == k';
          }
        }
      }
      assert ps == [ps[0]] + ps[1..];
      assert forall k' :: Get(ps, k') == if ps[0].0 == k' then Some(ps[0].1) else Get(ps[1..], k') by {
        forall k' ensures Get(ps, k') == if ps[0].0 == k' then Some(ps[0].1) else Get(ps[1..], k') {
          GetCons(ps[0], ps[1..], k');
        }
      }
      if ps[0].0 == k then rest
      else
        var r := [ps[0]] + rest;
        assert r[1..] == rest;
        assert forall k' :: Get(r, k') == if ps[0].0 == k' then Some(ps[0].1) else Get(rest, k') by {
          forall k' ensures Get(r, k') == if ps[0].0 == k' then Some(ps[0].1) else Get(rest, k') {
            GetCons(ps[0], rest, k');
          }
        }
        assert forall k' :: Has(r, k') <==> ps[0].0 == k' || Has(rest, k') by {
          forall k' ensures Has(r, k') <==> ps[0].0 == k' || Has(rest, k') {
            if Has(rest, k') {
              var i :| 0 <= i < |rest| && rest[i].0 == k';
              assert r[i + 1].0 == k';
            }
            if Has(r, k') && ps[0].0 != k' {
              var i :| 0 <= i < |r| && r[i].0 == k';
              assert rest[i - 1].0 == k';
            }
          }
        }
        r
  }

  /** `params.set(k, v)`: the first pair named `k` takes the value and the others go;
      with no such pair, one is appended. */
  function SetParam(ps: Params, k: string, v: string): (r: Params)
    ensures Get(r, k) == Some(v)
    ensures forall k' :: k' != k ==> Get(r, k') == Get(ps, k')
    ensures forall k' :: Has(r, k') <==> k' == k || Has(ps, k')
  {
    match OrderedMap.IndexOf(ps, k)
    case None =>
      AppendParam(ps, k, v);
      ps + [(k, v)]
    case Some(i) =>
      ReplaceParam(ps, k, v, i);
      ps[..i] + [(k, v)] + Drop(ps[i + 1..], k)
  }

  /** A name not yet present, appended. */
  lemma AppendParam(ps: Params, k: string, v: string)
    requires forall j :: 0 <= j < |ps| ==> ps[j].0 != k
    ensures Get(ps + [(k, v)], k) == Some(v)
    ensures forall k' :: k' != k ==> Get(ps + [(k, v)], k') == Get(ps, k')
    ensures forall k' :: Has(ps + [(k, v)], k') <==> k' == k || Has(ps, k')
  {
    var r := ps + [(k, v)];
    assert r[|ps|].0 == k;
    forall k' | Has(r, k') && k' != k ensures Has(ps, k') {
      var i :| 0 <= i < |r| && r[i].0 == k';
      assert ps[i].0 == k';
    }
    forall k' | Has(ps, k') ensures Has(r, k') {
      var i :| 0 <= i < |ps| && ps[i].0 == k';
      assert r[i].0 == k';
    }
    forall k' | k' != k ensures Get(r, k') == Get(ps, k') {
      GetConcat(ps, [(k, v)], k');
      GetCons((k, v), [], k');
    }
  }

  /** The first pair named `k`, at `i`, takes the value and the later ones go. */
  lemma ReplaceParam(ps: Params, k: string, v: string, i: nat)
    requires i < |ps| && ps[i].0 == k && forall j :: 0 <= j < i ==> ps[j].0 != k
    ensures Get(ps[..i] + [(k, v)] + Drop(ps[i + 1..], k), k) == Some(v)
    ensures forall k' :: k' != k ==> Get(ps[..i] + [(k, v)] + Drop(ps[i + 1..], k), k') == Get(ps, k')
    ensures forall k' :: Has(ps[..i] + [(k, v)] + Drop(ps[i + 1..], k), k') <==> k' == k || Has(ps, k')
  {
    var tail := Drop(ps[i + 1..], k);
    var r := ps[..i] + [(k, v)] + tail;
    assert r[i].0 == k;
    assert forall j :: 0 <= j < i ==> r[j] == ps[j];
    assert r == ps[..i] + ([(k, v)] + tail);
    assert ps == ps[..i] + ([ps[i]] + ps[i + 1..]);
    forall k' | k' != k ensures Get(r, k') == Get(ps, k') {
      GetConcat(ps[..i], [(k, v)] + tail, k');
      GetCons((k, v), tail, k');
      GetConcat(ps[..i], [ps[i]] + ps[i + 1..], k');
      GetCons(ps[i], ps[i + 1..], k');
    }
    forall k' ensures Has(r, k') <==> k' == k || Has(ps, k') {
      if k' != k {
        HasIffGet(r, k');
        HasIffGet(ps, k');
      }
    }
  }

  lemma HasIffGet(ps: Params, k: string)
    ensures Has(ps, k) <==> Get(ps, k).Some?
  {
    if Has(ps, k) {
      var i :| 0 <= i < |ps| && ps[i].0 == k;
    }
  }

  lemma GetCons(p: (string, string), rest: Params, k: string)
    ensures Get([p] + rest, k) == if p.0 == k then Some(p.1) else Get(rest, k)
  {
    assert ([p] + rest)[1..] == rest;
  }

  lemma {:induction false} GetConcat(a: Params, b: Params, k: string)
    ensures Get(a + b, k) == if Get(a, k).Some? then Get(a, k) else Get(b, k)
    decreases |a|
  {
    if |a| > 0 {
      assert a + b == [a[0]] + (a[1..] + b);
      assert a == [a[0]] + a[1..];
      GetCons(a[0], a[1..] + b, k);
      GetCons(a[0], a[1..], k);
      GetConcat(a[1..], b, k);
    } else {
      assert a + b == b;
    }
  }

  // ---- normalizePubToCsv ---------------------------------------------------

  /** `single=true` and `gid=0` added where absent. */
  function Defaults(ps: Params): (r: Params)
    ensures Has(r, "single") && Has(r, "gid")
    ensures Get(r, "single") == if Has(ps, "single") then Get(ps, "single") else Some("true")
    ensures Get(r, "gid") == if Has(ps, "gid") then Get(ps, "gid") else Some("0")
    ensures forall k :: k != "single" && k != "gid" ==> Get(r, k) == Get(ps, k)
  {
    var a := if Has(ps, "single") then ps else SetParam(ps, "single", "true");
    var b := if Has(a, "gid") then a else SetParam(a, "gid", "0");
    HasIffGet(ps, "single");
    HasIffGet(a, "gid");
    HasIffGet(ps, "gid");
    b
  }

  function CsvExport(ps: Params): Params {
    Defaults(SetParam(ps, "output", "csv"))
  }

  /** The CSV form of a publish-to-web URL, or `None` when it is left as it is. */
  function Rewrite(u: Url): (r: Option<Url>)
    ensures r.None? <==> !EndsWith(u.pathname, "/pubhtml") && !(EndsWith(u.pathname, "/pub") && !Has(u.params, "output"))
    ensures r.Some? ==> r.value.origin == u.origin && r.value.hash == u.hash
    ensures r.Some? ==> EndsWith(r.value.pathname, "/pub")
    ensures r.Some? ==> Get(r.value.params, "output") == Some("csv")
    ensures r.Some? ==> Get(r.value.params, "single") == if Has(u.params, "single") then Get(u.params, "single") else Some("true")
    ensures r.Some? ==> Get(r.value.params, "gid") == if Has(u.params, "gid") then Get(u.params, "gid") else Some("0")
    ensures r.Some? ==> forall k :: k != "output" && k != "single" && k != "gid" ==> Get(r.value.params, k) == Get(u.params, k)
  {
    var p := u.pathname;
    var ps := SetParam(u.params, "output", "csv");
    assert Has(ps, "single") <==> Has(u.params, "single");
    assert Has(ps, "gid") <==> Has(u.params, "gid");
    if EndsWith(p, "/pubhtml") then
      var p' := p[..|p| - 8] + "/pub";
      assert p'[|p'| - 4..] == "/pub";
      Some(u.(pathname := p', params := CsvExport(u.params)))
    else if EndsWith(p, "/pub") && !Has(u.params, "output") then
      Some(u.(params := CsvExport(u.params)))
    else
      None
  }

  /** `normalizePubToCsv`: an unparsable or already-usable URL comes back as given. */
  function NormalizePubToCsv(c: UrlCodec, raw: string): (r: string)
    ensures c.parse(raw).None? ==> r == raw
    ensures c.parse(raw).Some? && Rewrite(c.parse(raw).value).None? ==> r == raw
  {
    match c.parse(raw)
    case None => raw
    case Some(u) =>
      match Rewrite(u)
      case None => raw
      case Some(u') => c.show(u')
  }

  /** A rewritten URL is already usable, so normalizing twice is normalizing once. */
  lemma NormalizeIdempotent(c: UrlCodec, raw: string)
    requires Faithful(c)
    ensures NormalizePubToCsv(c, NormalizePubToCsv(c, raw)) == NormalizePubToCsv(c, raw)
  {
    match c.parse(raw)
    case None =>
    case Some(u) =>
      match Rewrite(u)
      case None =>
      case Some(u') =>
        assert c.parse(c.show(u')) == Some(u');
        HasIffGet(u'.params, "output");
        var p := u'.pathname;
        assert p[|p| - 1] == 'b';
        assert !EndsWith(p, "/pubhtml");
    }

  /** What a `/pubhtml` link turns into. */
  lemma PubhtmlBecomesCsv(c: UrlCodec, raw: string, u: Url)
    requires Faithful(c) && c.parse(raw) == Some(u) && EndsWith(u.pathname, "/pubhtml")
    ensures var n := c.parse(NormalizePubToCsv(c, raw));
      n.Some? && n.value.pathname == u.pathname[..|u.pathname| - 8] + "/pub"
      && Get(n.value.params, "output") == Some("csv")
      && Get(n.value.params, "single") == (if Has(u.params, "single") then Get(u.params, "single") else Some("true"))
      && Get(n.value.params, "gid") == (if Has(u.params, "gid") then Get(u.params, "gid") else Some("0"))
  {
    var u' := Rewrite(u).value;
    assert c.parse(c.show(u')) == Some(u');
  }

  // ---- buildGvizCsvUrl -----------------------------------------------------

  const SheetPrefix: string := "/spreadsheets/d/"

  /** `/\/spreadsheets\/d\/([^/]+)/` can match at `i`. */
  predicate SheetAt(path: string, i: int) {
    0 <= i && i + |SheetPrefix| < |path| && path[i..i + |SheetPrefix|] == SheetPrefix && path[i + |SheetPrefix|] != '/'
  }

  /** Length of the run of non-`/` characters at the start of `s`. */
  function SegmentRun(s: string): (n: nat)
    ensures n <= |s| && '/' !in s[..n] && (n < |s| ==> s[n] == '/')
  {
    if |s| > 0 && s[0] != '/' then
      var n := 1 + SegmentRun(s[1..]);
      assert s[..n] == [s[0]] + s[1..][..n - 1];
      n
    else 0
  }

  /** The segment captured by the leftmost match at or after `i`. */
  function SheetIdFrom(path: string, i: nat): (r: Option<string>)
    ensures r.None? <==> forall j :: i <= j ==> !SheetAt(path, j)
    ensures r.Some? ==>
      exists j :: (i <= j && SheetAt(path, j) && (forall m :: i <= m < j ==> !SheetAt(path, m))
                   && r.value == path[j + |SheetPrefix|..][..SegmentRun(path[j + |SheetPrefix|..])])
    decreases |path| - i
  {
    if i + |SheetPrefix| >= |path| then None
    else if SheetAt(path, i) then
      var rest := path[i + |SheetPrefix|..];
      Some(rest[..SegmentRun(rest)])
    else SheetIdFrom(path, i + 1)
  }

  /** The spreadsheet id: a non-empty segment without `/`. */
  function SheetId(path: string): (r: Option<string>)
    ensures r.None? <==> forall j :: 0 <= j ==> !SheetAt(path, j)
    ensures r.Some? ==> r.value != "" && '/' !in r.value
  {
    var r := SheetIdFrom(path, 0);
    if r.Some? then
      var j :| 0 <= j && SheetAt(path, j) && r.value == path[j + |SheetPrefix|..][..SegmentRun(path[j + |SheetPrefix|..])];
      assert SegmentRun(path[j + |SheetPrefix|..]) >= 1;
      r
    else r
  }

  function GvizBase(sid: string): string {
    "https://docs.google.com/spreadsheets/d/" + sid + "/gviz/tq"
  }

  /** `buildGvizCsvUrl`: `None` stands for `null`. */
  function BuildGvizCsvUrl(c: UrlCodec, editUrl: string, gid: string): (r: Option<string>)
    ensures c.parse(editUrl).None? ==> r.None?
    ensures c.parse(editUrl).Some? && SheetId(c.parse(editUrl).value.pathname).None? ==> r.None?
  {
    match c.parse(editUrl)
    case None => None
    case Some(u) =>
      match SheetId(u.pathname)
      case None => None
      case Some(sid) =>
        match c.parse(GvizBase(sid))
        case None => None
        case Some(out) => Some(c.show(out.(params := SetParam(SetParam(out.params, "tqx", "out:csv"), "gid", gid))))
  }

  /** The live query URL asks for CSV output of the requested tab of the edit link's spreadsheet. */
  lemma GvizQuery(c: UrlCodec, editUrl: string, gid: string)
    requires Faithful(c)
    requires BuildGvizCsvUrl(c, editUrl, gid).Some?
    ensures var sid := SheetId(c.parse(editUrl).value.pathname);
      var q := c.parse(BuildGvizCsvUrl(c, editUrl, gid).value);
      sid.Some? && c.parse(GvizBase(sid.value)).Some? && q.Some?
      && q.value.pathname == c.parse(GvizBase(sid.value)).value.pathname
      && Get(q.value.params, "tqx") == Some("out:csv") && Get(q.value.params, "gid") == Some(gid)
  {
    var u := c.parse(editUrl).value;
    var sid := SheetId(u.pathname).value;
    var out := c.parse(GvizBase(sid)).value;
    var out' := out.(params := SetParam(SetParam(out.params, "tqx", "out:csv"), "gid", gid));
    assert BuildGvizCsvUrl(c, editUrl, gid) == Some(c.show(out'));
    QueryParams(c, out, gid);
  }

  /** The base URL with both parameters set survives serialization with them. */
  lemma QueryParams(c: UrlCodec, out: Url, gid: string)
    requires Faithful(c)
    ensures var q := out.(params := SetParam(SetParam(out.params, "tqx", "out:csv"), "gid", gid));
      c.parse(c.show(q)) == Some(q) && q.pathname == out.pathname
      && Get(q.params, "tqx") == Some("out:csv") && Get(q.params, "gid") == Some(gid)
  {
    var inner := SetParam(out.params, "tqx", "out:csv");
    var q := out.(params := SetParam(inner, "gid", gid));
    assert c.parse(c.show(q)) == Some(q);
    assert Get(q.params, "tqx") == Get(inner, "tqx");
  }

  /** The id is the first segment after `/d/`: a publish link `/d/e/…` yields `e`. */
  lemma PublishedPathGivesE()
    ensures SheetId("/spreadsheets/d/e/2PACX/pubhtml") == Some("e")
  {
    var path := "/spreadsheets/d/e/2PACX/pubhtml";
    assert path[..|SheetPrefix|] == SheetPrefix;
    assert SheetAt(path, 0);
    var rest := path[|SheetPrefix|..];
    assert rest == "e/2PACX/pubhtml";
    assert SegmentRun(rest) == 1 by {
      assert rest[1..] == "/2PACX/pubhtml";
    }
    assert rest[..1] == "e";
  }
}
