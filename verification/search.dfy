/**
 * The search box: each booth's searchable text is its non-empty fields and
 * tags joined with spaces and lower-cased, and a booth matches when that text
 * contains the trimmed, lower-cased query.
 */
module Search {

  import opened Options
  import opened Text
  import Records

  /** `Booth` as the search box receives it. */
  datatype Booth = Booth(
    id: string, name: Option<string>, creationTheme: Option<string>, cpChars: Option<string>,
    author: Option<string>, productType: Option<string>,
    keywords: Option<seq<string>>, themeTags: Option<seq<string>>)

  /** The fields in `haystackOf`'s order; an absent one reads as empty. */
  function Fields(b: Booth): (fs: seq<string>)
    ensures |fs| >= 1 && fs[0] == b.id
  {
    [b.id, b.name.GetOr(""), b.creationTheme.GetOr(""), b.cpChars.GetOr(""), b.author.GetOr(""), b.productType.GetOr("")]
    + b.keywords.GetOr([]) + b.themeTags.GetOr([])
  }

  /** `haystackOf`. */
  function Haystack(b: Booth): string {
    Lower(Join(Records.NonEmpty(Fields(b)), " "))
  }

  /** `q.trim().toLowerCase()`. */
  function Needle(q: string): (kw: string)
    ensures kw == "" <==> IsBlank(q)
  {
    Lower(Trim(q))
  }

  predicate Matches(b: Booth, kw: string) {
    Contains(Haystack(b), kw)
  }

  /** Some booth of `data` with id `x` matches `kw`. */
  predicate Found(data: seq<Booth>, kw: string, x: string) {
    exists i | 0 <= i < |data| :: data[i].id == x && Matches(data[i], kw)
  }

  /** `results`: the ids of the matching booths, in data order; none for a blank query. */
  function Results(data: seq<Booth>, q: string): (ids: seq<string>)
    ensures IsBlank(q) ==> ids == []
    ensures |ids| <= |data|
    ensures forall x :: x in ids <==> !IsBlank(q) && Found(data, Needle(q), x)
  {
    var kw := Needle(q);
    if kw == "" then [] else Filter(data, kw)
  }

  function Filter(data: seq<Booth>, kw: string): (ids: seq<string>)
    ensures |ids| <= |data|
    ensures forall x :: x in ids <==> Found(data, kw, x)
  {
    if |data| == 0 then []
    else
      var rest := Filter(data[1..], kw);
      assert forall x :: Found(data, kw, x) <==> (data[0].id == x && Matches(data[0], kw)) || Found(data[1..], kw, x) by {
        forall x ensures Found(data, kw, x) <==> (data[0].id == x && Matches(data[0], kw)) || Found(data[1..], kw, x) {
          if Found(data, kw, x) {
            var i :| 0 <= i < |data| && data[i].id == x && Matches(data[i], kw);
            if i > 0 {
              assert data[1..][i - 1] == data[i];
            }
          }
          if Found(data[1..], kw, x) {
            var i :| 0 <= i < |data[1..]| && data[1..][i].id == x && Matches(data[1..][i], kw);
            assert data[i + 1] == data[1..][i];
          }
        }
      }
      if Matches(data[0], kw) then [data[0].id] + rest else rest
  }

  // ---------------------------------------------------------------------------
  // Properties

  /** Filtering a concatenation filters each part, so results keep the data order. */
  lemma {:induction false} FilterAppend(a: seq<Booth>, b: seq<Booth>, kw: string)
    ensures Filter(a + b, kw) == Filter(a, kw) + Filter(b, kw)
    decreases |a|
  {
    if |a| > 0 {
      assert (a + b)[1..] == a[1..] + b;
      FilterAppend(a[1..], b, kw);
    } else {
      assert a + b == b;
    }
  }

  lemma LowerAppend(a: string, b: string)
    ensures Lower(a + b) == Lower(a) + Lower(b)
  {
  }

  /** The lower-cased id opens the haystack. */
  lemma HaystackStartsWithId(b: Booth)
    ensures StartsWith(Haystack(b), Lower(b.id))
  {
    if b.id == "" {
      return;
    }
    var ne := Records.NonEmpty(Fields(b));
    assert ne[0] == b.id;
    if |ne| == 1 {
      assert Join(ne, " ") == b.id;
    } else {
      assert Join(ne, " ") == b.id + (" " + Join(ne[1..], " "));
      LowerAppend(b.id, " " + Join(ne[1..], " "));
    }
  }

  /** A needle found in the lower-cased id is found in the haystack. */
  lemma IdMatches(b: Booth, kw: string)
    requires Contains(Lower(b.id), kw) && kw != ""
    ensures Matches(b, kw)
  {
    HaystackStartsWithId(b);
    var h := Haystack(b);
    var l := Lower(b.id);
    assert h == l + h[|l|..];
    ContainsLeft(l, h[|l|..], kw);
  }

  /** Every field is searched: a needle found in any lower-cased field, keyword or
      tag matches the booth. */
  lemma FieldSearched(b: Booth, i: nat, kw: string)
    requires i < |Fields(b)| && kw != "" && Contains(Lower(Fields(b)[i]), kw)
    ensures Matches(b, kw)
  {
    var f := Fields(b)[i];
    var ne := Records.NonEmpty(Fields(b));
    assert f != "";
    assert f in ne;
    var j :| 0 <= j < |ne| && ne[j] == f;
    JoinHasPiece(ne, " ", j);
    var x, y :| Join(ne, " ") == x + f + y;
    LowerAppend(x + f, y);
    LowerAppend(x, f);
    ContainsRight(Lower(x), Lower(f), kw);
    ContainsLeft(Lower(x) + Lower(f), Lower(y), kw);
  }

  /** A query found in the id always finds the booth. */
  lemma IdAlwaysSearched(data: seq<Booth>, i: nat, q: string)
    requires i < |data| && !IsBlank(q)
    requires Contains(Lower(data[i].id), Needle(q))
    ensures data[i].id in Results(data, q)
  {
    IdMatches(data[i], Needle(q));
    assert Found(data, Needle(q), data[i].id);
  }

  lemma SpaceUnchanged(c: char)
    ensures IsSpace(UpperChar(c)) <==> IsSpace(c)
    ensures LowerChar(UpperChar(c)) == LowerChar(c)
  {
  }

  /** Trimming and upper-casing commute. */
  lemma {:induction false} TrimUpper(s: string)
    ensures Trim(Upper(s)) == Upper(Trim(s))
    decreases |s|
  {
    var u := Upper(s);
    if |s| > 0 {
      SpaceUnchanged(s[0]);
      SpaceUnchanged(s[|s| - 1]);
      if IsSpace(s[0]) {
        assert u[1..] == Upper(s[1..]);
        TrimUpper(s[1..]);
      } else if IsSpace(s[|s| - 1]) {
        assert u[..|s| - 1] == Upper(s[..|s| - 1]);
        TrimUpper(s[..|s| - 1]);
      }
    }
  }

  /** The query's letter case does not matter. */
  lemma QueryCaseInsensitive(data: seq<Booth>, q: string)
    ensures Results(data, Upper(q)) == Results(data, q)
  {
    TrimUpper(q);
    var t := Trim(q);
    assert Lower(Upper(t)) == Lower(t) by {
      forall k | 0 <= k < |t| ensures LowerChar(UpperChar(t[k])) == LowerChar(t[k]) {
        SpaceUnchanged(t[k]);
      }
    }
  }

  lemma ExampleFields(b: Booth)
    requires b == Booth("X1", Some("A"), Some("B"), None, None, None, None, None)
    ensures Records.NonEmpty(Fields(b)) == ["X1", "A", "B"]
  {
    var fs := Fields(b);
    assert fs == ["X1", "A", "B", "", "", ""];
    assert Records.NonEmpty(fs[5..]) == [] by { assert fs[5..] == [""] && fs[5..][1..] == []; }
    assert Records.NonEmpty(fs[4..]) == [] by { assert fs[4..][1..] == fs[5..]; }
    assert Records.NonEmpty(fs[3..]) == [] by { assert fs[3..][1..] == fs[4..]; }
    assert Records.NonEmpty(fs[2..]) == ["B"] by { assert fs[2..][1..] == fs[3..]; }
    assert Records.NonEmpty(fs[1..]) == ["A", "B"] by { assert fs[1..][1..] == fs[2..]; }
  }

  lemma ExampleJoin()
    ensures Lower(Join(["X1", "A", "B"], " ")) == "x1 a b"
  {
    var xs := ["X1", "A", "B"];
    assert Join(xs[2..], " ") == "B" by { assert xs[2..] == ["B"]; }
    assert Join(xs[1..], " ") == "A B" by { assert xs[1..][1..] == xs[2..]; }
    assert Join(xs, " ") == "X1 A B";
  }

  lemma ExampleHaystack(b: Booth)
    requires b == Booth("X1", Some("A"), Some("B"), None, None, None, None, None)
    ensures Haystack(b) == "x1 a b"
  {
    ExampleFields(b);
    ExampleJoin();
  }

  /** Fields are joined with a space, so a query may span two of them. */
  lemma AcrossFieldsExample()
    ensures Matches(Booth("X1", Some("A"), Some("B"), None, None, None, None, None), "a b")
  {
    var b := Booth("X1", Some("A"), Some("B"), None, None, None, None, None);
    ExampleHaystack(b);
    ExampleOccurs();
  }

  lemma ExampleOccurs()
    ensures OccursAt("x1 a b", "a b", 3)
  {
    var h := "x1 a b";
    assert h[3..6] == "a b";
  }
}
