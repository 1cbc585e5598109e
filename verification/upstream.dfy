/**
 * Choosing the CSV source: the candidate URLs in preference order, the test
 * a fetched body must pass, and the first candidate that passes it.
 */
module Upstream {

  import opened Options
  import opened Text
  import Urls

  // ---- looksLikeHtml -------------------------------------------------------

  const HeadLength: nat := 200

  /** `s.slice(0, 200).toLowerCase().trim()`. */
  function Head(s: string): string {
    Trim(Lower(if |s| <= HeadLength then s else s[..HeadLength]))
  }

  /** A blank body, or one whose head opens a doctype or an `<html` tag. */
  predicate LooksLikeHtml(s: string) {
    IsBlank(s) || StartsWith(Head(s), "<!doctype") || StartsWith(Head(s), "<html")
  }

  /** A body whose first visible character is not `<` is never taken for HTML, unless it is blank. */
  lemma {:induction false} PlainBodyNotHtml(ws: string, c: char, rest: string)
    requires IsBlank(ws) && !IsSpace(c) && c != '<' && |ws| < HeadLength
    ensures !LooksLikeHtml(ws + [c] + rest)
  {
    var s := ws + [c] + rest;
    assert s[|ws|] == c;
    assert !IsBlank(s);
    var w := if |s| <= HeadLength then s else s[..HeadLength];
    var l := Lower(w);
    assert w[..|ws|] == ws;
    LowerKeepsBlankPrefix(w, |ws|);
    assert w[|ws|] == c;
    assert l[|ws|] == LowerChar(c);
    LowerVisible(c);
    LeadingBlanks(l, |ws|);
    assert Head(s)[0] == l[|ws|];
  }

  /** Lower-casing keeps a visible character visible and does not produce `<`. */
  lemma LowerVisible(c: char)
    requires !IsSpace(c) && c != '<'
    ensures !IsSpace(LowerChar(c)) && LowerChar(c) != '<'
  {
    if 'A' <= c <= 'Z' {
      assert 'a' <= LowerChar(c) <= 'z';
    }
  }

  lemma LowerKeepsBlankPrefix(w: string, k: nat)
    requires k <= |w| && IsBlank(w[..k])
    ensures IsBlank(Lower(w)[..k])
  {
    forall i | 0 <= i < k ensures IsSpace(Lower(w)[..k][i]) {
      assert w[..k][i] == w[i];
    }
  }

  /** Trimming a string that has `k` blanks and then a visible character starts at that character. */
  lemma LeadingBlanks(l: string, k: nat)
    requires k < |l| && IsBlank(l[..k]) && !IsSpace(l[k])
    ensures |Trim(l)| > 0 && Trim(l)[0] == l[k]
  {
    TrimFramed(l);
    var a :| SpaceFramed(l, Trim(l), a);
    assert forall i :: 0 <= i < k ==> IsSpace(l[i]) by {
      forall i | 0 <= i < k ensures IsSpace(l[i]) {
        assert l[i] == l[..k][i];
      }
    }
  }

  /** A body whose head opens, after white space, with `<html` or `<!doctype` in any
      letter case is taken for HTML, whatever follows. */
  lemma TagOpensHtml(ws: string, tag: string, rest: string)
    requires IsBlank(ws) && |ws| + |tag| <= HeadLength
    requires Lower(tag) == "<html" || Lower(tag) == "<!doctype"
    ensures LooksLikeHtml(ws + tag + rest)
  {
    var s := ws + tag + rest;
    var w := if |s| <= HeadLength then s else s[..HeadLength];
    HeadPrefix(ws, tag, rest, w);
    LowerSlice(w, |ws|, |ws| + |tag|);
    LowerKeepsBlankPrefix(w, |ws|);
    var t := Lower(tag);
    assert t[0] == '<' && (t[|t| - 1] == 'l' || t[|t| - 1] == 'e');
    TrimKeepsFront(Lower(w), |ws|, t);
  }

  lemma HeadPrefix(ws: string, tag: string, rest: string, w: string)
    requires w <= ws + tag + rest && |ws| + |tag| <= |w|
    ensures w[..|ws|] == ws && w[|ws|..|ws| + |tag|] == tag
  {
    var s := ws + tag + rest;
    assert w[..|ws| + |tag|] == s[..|ws| + |tag|] == ws + tag;
    assert w[|ws|..|ws| + |tag|] == w[..|ws| + |tag|][|ws|..];
  }

  lemma LowerSlice(w: string, i: nat, j: nat)
    requires i <= j <= |w|
    ensures Lower(w)[i..j] == Lower(w[i..j])
  {
  }

  /** Trimming a string whose first visible text is `t`, with `t` ending visibly, keeps `t` at the front. */
  lemma TrimKeepsFront(l: string, k: nat, t: string)
    requires k + |t| <= |l| && IsBlank(l[..k]) && l[k..k + |t|] == t
    requires |t| > 0 && !IsSpace(t[0]) && !IsSpace(t[|t| - 1])
    ensures StartsWith(Trim(l), t)
  {
    var r := Trim(l);
    TrimFramed(l);
    var a :| SpaceFramed(l, r, a);
    assert l[k] == t[0];
    assert l[k + |t| - 1] == t[|t| - 1];
    assert forall i :: 0 <= i < k ==> IsSpace(l[i]) by {
      forall i | 0 <= i < k ensures IsSpace(l[i]) {
        assert l[..k][i] == l[i];
      }
    }
    assert |r| > 0;
    assert a == k;
    assert a + |r| >= k + |t|;
    assert r[..|t|] == l[k..k + |t|];
  }

  lemma DoctypeIsHtml()
    ensures LooksLikeHtml("<!DOCTYPE html><html>")
  {
    var s := "<!DOCTYPE html><html>";
    assert Lower(s) == "<!doctype html><html>";
    TrimmedFixed("<!doctype html><html>");
    assert Head(s) == "<!doctype html><html>";
  }

  lemma CsvBodyNotHtml()
    ensures !LooksLikeHtml("攤位編號,社團名稱\nA01,Foo\n")
  {
    var s := "攤位編號,社團名稱\nA01,Foo\n";
    PlainBodyNotHtml("", s[0], s[1..]);
    assert "" + [s[0]] + s[1..] == s;
  }

  // ---- Candidates ----------------------------------------------------------

  /** The source configuration: publish link, optional edit link, requested tab. */
  datatype Source = Source(raw: string, edit: string, gid: string)

  /** `norm` when truthy, then `raw` when it differs from `norm`. */
  function PublishList(raw: string, norm: string): (cs: seq<string>)
    ensures |cs| <= 2
    ensures raw != "" ==> |cs| >= 1 && raw in cs
    ensures norm != "" ==> |cs| >= 1 && cs[0] == norm
    ensures raw == norm ==> |cs| <= 1
  {
    if norm == "" then (if raw != norm then [raw] else [])
    else if raw != norm then [norm, raw]
    else [norm]
  }

  /** The normalized publish link, then the original when it differs. */
  function PublishCandidates(c: Urls.UrlCodec, src: Source): seq<string> {
    PublishList(src.raw, Urls.NormalizePubToCsv(c, src.raw))
  }

  /** `edit ? buildGvizCsvUrl(edit, gid) : null`, kept only when truthy. */
  function GvizCandidate(c: Urls.UrlCodec, src: Source): (g: seq<string>)
    ensures |g| <= 1
    ensures src.edit == "" ==> g == []
  {
    if src.edit == "" then []
    else
      match Urls.BuildGvizCsvUrl(c, src.edit, src.gid)
      case None => []
      case Some(u) => if u == "" then [] else [u]
  }

  /** The edge function's order: the live query first. */
  function FunctionsCandidates(c: Urls.UrlCodec, src: Source): seq<string> {
    GvizCandidate(c, src) + PublishCandidates(c, src)
  }

  /** The page route's order: the live query last. */
  function PagesCandidates(c: Urls.UrlCodec, src: Source): seq<string> {
    PublishCandidates(c, src) + GvizCandidate(c, src)
  }

  /** The two routes try the same URLs; only the live query moves from first to last. */
  lemma CandidateOrders(c: Urls.UrlCodec, src: Source)
    ensures multiset(FunctionsCandidates(c, src)) == multiset(PagesCandidates(c, src))
    ensures |GvizCandidate(c, src)| == 1 ==>
      FunctionsCandidates(c, src) == PagesCandidates(c, src)[|PagesCandidates(c, src)| - 1..] + PagesCandidates(c, src)[..|PagesCandidates(c, src)| - 1]
    ensures |GvizCandidate(c, src)| == 0 ==> FunctionsCandidates(c, src) == PagesCandidates(c, src)
  {
    var g, p := GvizCandidate(c, src), PublishCandidates(c, src);
    if |g| == 1 {
      var q := p + g;
      assert q[|q| - 1..] == g && q[..|q| - 1] == p;
    } else {
      assert g == [];
      assert g + p == p + g == p;
    }
  }

  /** With a publish link and a parsable edit link, the edge function asks the live query first. */
  lemma LiveQueryFirst(c: Urls.UrlCodec, src: Source)
    requires src.raw != "" && src.edit != ""
    requires Urls.BuildGvizCsvUrl(c, src.edit, src.gid).Some? && Urls.BuildGvizCsvUrl(c, src.edit, src.gid).value != ""
    ensures FunctionsCandidates(c, src)[0] == Urls.BuildGvizCsvUrl(c, src.edit, src.gid).value
    ensures PagesCandidates(c, src)[|PagesCandidates(c, src)| - 1] == Urls.BuildGvizCsvUrl(c, src.edit, src.gid).value
  {
    var g := Urls.BuildGvizCsvUrl(c, src.edit, src.gid).value;
    assert GvizCandidate(c, src) == [g];
  }

  // ---- Fetching and accepting ----------------------------------------------

  /** What one fetch gives: a thrown error, or a response (content type `""` when absent). */
  datatype Fetched = Threw | Response(ok: bool, status: int, contentType: string, body: string, finalUrl: string)

  /** `/csv|plain|text/.test(ct) || !ct`. */
  predicate TextualType(ct: string) {
    Contains(ct, "csv") || Contains(ct, "plain") || Contains(ct, "text") || ct == ""
  }

  /** The page route keeps any successful non-HTML body. */
  predicate PagesAccepts(f: Fetched) {
    f.Response? && f.ok && !LooksLikeHtml(f.body)
  }

  /** The edge function also wants a textual content type, or none. */
  predicate FunctionsAccepts(f: Fetched) {
    PagesAccepts(f) && TextualType(f.contentType)
  }

  /** An accepted body is never empty, so the `!finalBody` checks only catch "nothing accepted". */
  lemma AcceptedBodyNonEmpty(f: Fetched)
    requires PagesAccepts(f)
    ensures f.body != ""
  {
  }

  /** A needle with a character the haystack lacks does not occur in it. */
  lemma MissingLetter(h: string, n: string, j: nat)
    requires j < |n| && n[j] !in h
    ensures !Contains(h, n)
  {
    forall i | 0 <= i <= |h| ensures !OccursAt(h, n, i) {
    }
  }

  /** The edge function accepts less: an image reply the page route would keep is refused. */
  lemma FunctionsStricter(f: Fetched)
    ensures FunctionsAccepts(f) ==> PagesAccepts(f)
    ensures PagesAccepts(f) && f.contentType == "image/png" ==> !FunctionsAccepts(f)
  {
    if f.Response? && f.contentType == "image/png" {
      MissingLetter(f.contentType, "csv", 1);
      MissingLetter(f.contentType, "plain", 1);
      MissingLetter(f.contentType, "text", 2);
    }
  }

  /** The first acceptable candidate, if any. */
  predicate FirstAccepted(cands: seq<string>, fetch: string -> Fetched, accept: Fetched -> bool, i: int) {
    0 <= i < |cands| && accept(fetch(cands[i])) && forall j :: 0 <= j < i ==> !accept(fetch(cands[j]))
  }

  /** Index of the first acceptable candidate. */
  function FirstAcceptedIndex(cands: seq<string>, fetch: string -> Fetched, accept: Fetched -> bool): (r: Option<nat>)
    ensures r.None? <==> forall i :: 0 <= i < |cands| ==> !accept(fetch(cands[i]))
    ensures r.Some? ==> FirstAccepted(cands, fetch, accept, r.value)
  {
    if |cands| == 0 then None
    else if accept(fetch(cands[0])) then Some(0)
    else
      match FirstAcceptedIndex(cands[1..], fetch, accept)
      case None => None
      case Some(i) =>
        assert forall j :: 1 <= j <= i + 1 ==> cands[j] == cands[1..][j - 1];
        Some(i + 1)
  }

  /** The outcome of trying candidates in order. */
  datatype Selection = Selection(chosen: Option<(string, Fetched)>, tried: seq<string>, lastStatus: int, lastType: string)

  /** The loop over candidates: each is fetched in turn until one is accepted. */
  method Select(cands: seq<string>, fetch: string -> Fetched, accept: Fetched -> bool) returns (sel: Selection)
    ensures sel.chosen.None? <==> forall i :: 0 <= i < |cands| ==> !accept(fetch(cands[i]))
    ensures sel.chosen.None? ==> sel.tried == cands
    ensures sel.chosen.Some? ==>
      exists i :: (FirstAccepted(cands, fetch, accept, i)
                   && sel.chosen.value == (cands[i], fetch(cands[i])) && sel.tried == cands[..i + 1])
  {
    var tried: seq<string> := [];
    var lastStatus, lastType := 0, "";
    var i := 0;
    while i < |cands|
      invariant 0 <= i <= |cands| && tried == cands[..i]
      invariant forall j :: 0 <= j < i ==> !accept(fetch(cands[j]))
    {
      var f := fetch(cands[i]);
      tried := tried + [cands[i]];
      if f.Response? {
        lastStatus, lastType := f.status, f.contentType;
      }
      if accept(f) {
        assert FirstAccepted(cands, fetch, accept, i);
        return Selection(Some((cands[i], f)), tried, lastStatus, lastType);
      }
      i := i + 1;
    }
    assert cands[..i] == cands;
    return Selection(None, tried, lastStatus, lastType);
  }

  // ---- The page route ------------------------------------------------------

  /** What the page route answers. */
  datatype PagesReply =
    | MissingSource                                      // 500
    | Unavailable(candidates: seq<string>, upstreamStatus: int, upstreamType: string)   // 502
    | Csv(body: string, sourceUrl: string, upstreamType: string)                         // 200

  /** `GET` of the page route; `raw == ""` stands for an unset publish link. */
  method PagesGet(c: Urls.UrlCodec, src: Source, fetch: string -> Fetched) returns (reply: PagesReply)
    ensures src.raw == "" <==> reply.MissingSource?
    ensures reply.Unavailable? ==>
      (reply.candidates == PagesCandidates(c, src)
       && forall i :: 0 <= i < |PagesCandidates(c, src)| ==> !PagesAccepts(fetch(PagesCandidates(c, src)[i])))
    ensures reply.Csv? ==>
      exists i :: (FirstAccepted(PagesCandidates(c, src), fetch, PagesAccepts, i)
                   && reply.body == fetch(PagesCandidates(c, src)[i]).body && reply.body != "")
  {
    if src.raw == "" {
      return MissingSource;
    }
    var cands := PagesCandidates(c, src);
    var sel := Select(cands, fetch, PagesAccepts);
    match sel.chosen
    case None =>
      reply := Unavailable(cands, sel.lastStatus, sel.lastType);
    case Some(pair) =>
      var (cand, f) := pair;
      reply := Csv(f.body, if f.finalUrl != "" then f.finalUrl else cand, sel.lastType);
  }
}
