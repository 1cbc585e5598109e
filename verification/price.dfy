/**
 * The price column of a work item: the first number found in the free-text
 * price cell, or null when there is none or it is zero.
 */
module Price {

  import opened Options

  predicate IsDigit(c: char) {
    '0' <= c <= '9'
  }

  predicate AllDigits(s: string) {
    forall i :: 0 <= i < |s| ==> IsDigit(s[i])
  }

  function DigitOf(d: nat): (c: char)
    requires d < 10
    ensures IsDigit(c) && c as int - '0' as int == d
  {
    ('0' as int + d) as char
  }

  /** Length of the run of digits at the start of `s`. */
  function DigitRun(s: string): (n: nat)
    ensures n <= |s| && AllDigits(s[..n]) && (n < |s| ==> !IsDigit(s[n]))
  {
    if |s| > 0 && IsDigit(s[0]) then 1 + DigitRun(s[1..]) else 0
  }

  /** Position of the first digit of `s`. */
  function FirstDigit(s: string): (r: Option<nat>)
    ensures r.None? <==> forall i :: 0 <= i < |s| ==> !IsDigit(s[i])
    ensures r.Some? ==> r.value < |s| && IsDigit(s[r.value]) && forall j :: 0 <= j < r.value ==> !IsDigit(s[j])
  {
    if |s| == 0 then None
    else if IsDigit(s[0]) then Some(0)
    else
      match FirstDigit(s[1..])
      case None => None
      case Some(i) => Some(i + 1)
  }

  /** The decimal value of a digit string (leading zeros allowed). */
  function DigitsValue(ds: string): nat
    requires AllDigits(ds)
  {
    if |ds| == 0 then 0 else 10 * DigitsValue(ds[..|ds| - 1]) + (ds[|ds| - 1] as int - '0' as int)
  }

  function Pow10(k: nat): (p: nat)
    ensures p >= 1
  {
    if k == 0 then 1 else 10 * Pow10(k - 1)
  }

  /** A match of `\d+(?:[.]\d+)?`: the integer digits and the (possibly empty) fraction digits. */
  datatype Number = Number(whole: string, frac: string)
  {
    predicate Valid() {
      |whole| > 0 && AllDigits(whole) && AllDigits(frac)
    }

    /** `Number(whole + "." + frac)`: zero exactly when every digit is zero. */
    function Value(): (v: real)
      requires Valid()
      ensures v >= 0.0 && (v == 0.0 <==> DigitsValue(whole) == 0 && DigitsValue(frac) == 0)
    {
      var w := DigitsValue(whole) as real;
      var f := DigitsValue(frac) as real;
      var p := Pow10(|frac|) as real;
      FractionNonNegative(f, p);
      w + f / p
    }
  }

  lemma FractionNonNegative(f: real, p: real)
    requires f >= 0.0 && p >= 1.0
    ensures f / p >= 0.0 && (f / p == 0.0 <==> f == 0.0)
  {
    if f > 0.0 {
      assert f / p > 0.0;
    }
  }

  /** The optional `.digits` part that may follow an integer run. */
  function Fraction(after: string): (f: string)
    ensures AllDigits(f)
    ensures f != [] ==> |after| >= 1 + |f| && after[0] == '.' && after[1..1 + |f|] == f
    ensures f == [] <==> !(|after| >= 2 && after[0] == '.' && IsDigit(after[1]))
  {
    if |after| >= 2 && after[0] == '.' && IsDigit(after[1]) then
      var n := DigitRun(after[1..]);
      assert after[1..1 + n] == after[1..][..n];
      after[1..1 + n]
    else ""
  }

  /** The leftmost, longest match of `\d+(?:[.]\d+)?` in `s`. */
  function FirstNumber(s: string): (m: Option<Number>)
    ensures m.None? <==> forall i :: 0 <= i < |s| ==> !IsDigit(s[i])
    ensures m.Some? ==> m.value.Valid()
  {
    match FirstDigit(s)
    case None => None
    case Some(i) =>
      var n := DigitRun(s[i..]);
      Some(Number(s[i..][..n], Fraction(s[i..][n..])))
  }

  /** `Number(match) || null`, with the absent cell also giving null. */
  function PriceNum(priceRaw: Option<string>): (r: Option<real>)
    ensures r.Some? ==> r.value > 0.0
    ensures priceRaw.None? ==> r.None?
  {
    if priceRaw.None? then None
    else
      match FirstNumber(priceRaw.value)
      case None => None
      case Some(m) => if m.Value() == 0.0 then None else Some(m.Value())
  }

  // ---- Rendering a natural number in decimal --------------------------------

  function Render(n: nat): (s: string)
    ensures |s| >= 1 && AllDigits(s)
  {
    if n < 10 then [DigitOf(n)] else Render(n / 10) + [DigitOf(n % 10)]
  }

  lemma {:induction false} RenderValue(n: nat)
    ensures DigitsValue(Render(n)) == n
  {
    if n >= 10 {
      var s := Render(n);
      assert s[..|s| - 1] == Render(n / 10);
      RenderValue(n / 10);
    }
  }

  lemma {:induction false} ValueAppend(x: string, y: string)
    requires AllDigits(x) && AllDigits(y)
    ensures AllDigits(x + y)
    ensures DigitsValue(x + y) == DigitsValue(x) * Pow10(|y|) + DigitsValue(y)
    decreases |y|
  {
    if |y| > 0 {
      var xy := x + y;
      var y' := y[..|y| - 1];
      var d := y[|y| - 1] as int - '0' as int;
      assert xy[..|xy| - 1] == x + y';
      assert xy[|xy| - 1] == y[|y| - 1];
      ValueAppend(x, y');
      var a, p := DigitsValue(x), Pow10(|y'|);
      calc {
        DigitsValue(xy);
        10 * DigitsValue(x + y') + d;
        10 * (a * p + DigitsValue(y')) + d;
        { MulAssoc(10, a, p); }
        a * (10 * p) + (10 * DigitsValue(y') + d);
        a * Pow10(|y|) + DigitsValue(y);
      }
    } else {
      assert x + y == x;
    }
  }

  lemma MulAssoc(k: int, a: int, p: int)
    ensures k * (a * p) == a * (k * p)
  {
  }

  /** A cell whose only number is an integer yields that integer. */
  predicate Framed(pre: string, post: string) {
    (forall i :: 0 <= i < |pre| ==> !IsDigit(pre[i]))
    && (|post| > 0 ==> !IsDigit(post[0]) && post[0] != '.')
  }

  lemma {:induction false} FirstDigitAfter(pre: string, t: string)
    requires (forall i :: 0 <= i < |pre| ==> !IsDigit(pre[i])) && |t| > 0 && IsDigit(t[0])
    ensures FirstDigit(pre + t) == Some(|pre|)
    decreases |pre|
  {
    if |pre| > 0 {
      assert (pre + t)[1..] == pre[1..] + t;
      FirstDigitAfter(pre[1..], t);
    }
  }

  lemma {:induction false} DigitRunOf(r: string, post: string)
    requires AllDigits(r) && (|post| > 0 ==> !IsDigit(post[0]))
    ensures DigitRun(r + post) == |r|
    decreases |r|
  {
    if |r| > 0 {
      assert (r + post)[1..] == r[1..] + post;
      DigitRunOf(r[1..], post);
    } else {
      assert r + post == post;
    }
  }

  /** The first number of a cell whose digits are one integer run. */
  lemma FirstNumberFramed(pre: string, r: string, post: string)
    requires |r| >= 1 && AllDigits(r) && Framed(pre, post)
    ensures FirstNumber(pre + r + post) == Some(Number(r, ""))
  {
    var s := pre + r + post;
    assert s == pre + (r + post);
    FirstDigitAfter(pre, r + post);
    assert s[|pre|..] == r + post;
    DigitRunOf(r, post);
    assert (r + post)[..|r|] == r;
    assert (r + post)[|r|..] == post;
  }

  lemma IntegerValue(r: string)
    requires |r| >= 1 && AllDigits(r)
    ensures Number(r, "").Valid() && Number(r, "").Value() == DigitsValue(r) as real
  {
    assert DigitsValue("") == 0;
    assert Pow10(0) == 1;
  }

  lemma RenderedPrice(pre: string, n: nat, post: string)
    requires Framed(pre, post) && n > 0
    ensures PriceNum(Some(pre + Render(n) + post)) == Some(n as real)
  {
    FirstNumberFramed(pre, Render(n), post);
    RenderValue(n);
    IntegerValue(Render(n));
  }

  /** As written the pattern stops at a thousands separator, so `"1,250元"` is priced 1. */
  lemma GroupedPriceAsWritten()
    ensures PriceNum(Some("1,250元")) == Some(1.0)
  {
    RenderedPrice("", 1, ",250元");
    assert "" + Render(1) + ",250元" == "1,250元";
  }

  lemma ZeroPriceIsNull()
    ensures PriceNum(Some("0元")) == None
  {
    var s := "0元";
    assert FirstDigit(s) == Some(0);
    assert DigitRun(s) == 1 by { assert DigitRun(s[1..]) == 0; }
    assert s[..1] == "0";
  }

  lemma NoDigitIsNull()
    ensures PriceNum(Some("洽詢")) == None
  {
  }

  // ---- Thousands separators -------------------------------------------------

  /** Length of the run of digits and commas at the start of `s`. */
  function GroupRun(s: string): (n: nat)
    ensures n <= |s| && (n < |s| ==> !IsDigit(s[n]) && s[n] != ',')
  {
    if |s| > 0 && (IsDigit(s[0]) || s[0] == ',') then 1 + GroupRun(s[1..]) else 0
  }

  function DropCommas(s: string): (r: string)
    ensures (forall i :: 0 <= i < |s| ==> IsDigit(s[i]) || s[i] == ',') ==> AllDigits(r)
  {
    if |s| == 0 then "" else (if s[0] == ',' then "" else [s[0]]) + DropCommas(s[1..])
  }

  /** The first match of `\d[\d,]*(?:[.]\d+)?` with its commas removed. */
  function FirstGroupedNumber(s: string): (m: Option<Number>)
    ensures m.None? <==> forall i :: 0 <= i < |s| ==> !IsDigit(s[i])
    ensures m.Some? ==> m.value.Valid()
  {
    match FirstDigit(s)
    case None => None
    case Some(i) =>
      var rest := s[i..];
      var n := GroupRun(rest);
      assert n >= 1 by { assert IsDigit(rest[0]); }
      var run := rest[..n];
      assert forall j :: 0 <= j < |run| ==> IsDigit(run[j]) || run[j] == ',' by {
        forall j | 0 <= j < |run| ensures IsDigit(run[j]) || run[j] == ',' {
          GroupRunChars(rest, j);
        }
      }
      assert run[0] == rest[0];
      Some(Number(DropCommas(run), Fraction(rest[n..])))
  }

  lemma {:induction false} GroupRunChars(s: string, j: nat)
    requires j < GroupRun(s)
    ensures IsDigit(s[j]) || s[j] == ','
  {
    if j > 0 {
      GroupRunChars(s[1..], j - 1);
    }
  }

  /** The price the `.replace(",", "")` was meant to produce: thousands separators ignored. */
  function GroupedPriceNum(priceRaw: Option<string>): (r: Option<real>)
    ensures r.Some? ==> r.value > 0.0
    ensures priceRaw.None? ==> r.None?
  {
    if priceRaw.None? then None
    else
      match FirstGroupedNumber(priceRaw.value)
      case None => None
      case Some(m) => if m.Value() == 0.0 then None else Some(m.Value())
  }

  /** Three digits with leading zeros. */
  function Pad3(b: nat): (s: string)
    requires b < 1000
    ensures |s| == 3 && AllDigits(s)
  {
    [DigitOf(b / 100), DigitOf(b / 10 % 10), DigitOf(b % 10)]
  }

  lemma Pad3Value(b: nat)
    requires b < 1000
    ensures DigitsValue(Pad3(b)) == b
  {
    ThreeDigits(b / 100, b / 10 % 10, b % 10);
    HundredsTensUnits(b);
  }

  lemma ThreeDigits(h: nat, t: nat, u: nat)
    requires h < 10 && t < 10 && u < 10
    ensures DigitsValue([DigitOf(h), DigitOf(t), DigitOf(u)]) == 100 * h + 10 * t + u
  {
    var s := [DigitOf(h), DigitOf(t), DigitOf(u)];
    assert s[..2] == [DigitOf(h), DigitOf(t)];
    assert s[..2][..1] == [DigitOf(h)];
    assert s[..2][..1][..0] == [];
    assert DigitsValue(s[..2][..1]) == h;
    assert DigitsValue(s[..2]) == 10 * h + t;
  }

  lemma HundredsTensUnits(b: nat)
    requires b < 1000
    ensures b == 100 * (b / 100) + 10 * (b / 10 % 10) + b % 10
  {
    assert b == 10 * (b / 10) + b % 10;
    assert b / 10 == 10 * (b / 10 / 10) + b / 10 % 10;
    assert b / 10 / 10 == b / 100;
  }

  lemma {:induction false} DropCommasAppend(x: string, y: string)
    ensures DropCommas(x + y) == DropCommas(x) + DropCommas(y)
    decreases |x|
  {
    if |x| == 0 {
      assert x + y == y;
    } else {
      assert (x + y)[1..] == x[1..] + y;
      DropCommasAppend(x[1..], y);
    }
  }

  lemma {:induction false} DropCommasDigits(x: string)
    requires AllDigits(x)
    ensures DropCommas(x) == x
    decreases |x|
  {
    if |x| > 0 {
      DropCommasDigits(x[1..]);
      assert x == [x[0]] + x[1..];
    }
  }

  predicate Grouped(r: string) {
    |r| >= 1 && IsDigit(r[0]) && forall j :: 0 <= j < |r| ==> IsDigit(r[j]) || r[j] == ','
  }

  lemma {:induction false} GroupRunOf(r: string, post: string)
    requires (forall j :: 0 <= j < |r| ==> IsDigit(r[j]) || r[j] == ',')
    requires |post| > 0 ==> !IsDigit(post[0]) && post[0] != ','
    ensures GroupRun(r + post) == |r|
    decreases |r|
  {
    if |r| > 0 {
      assert (r + post)[1..] == r[1..] + post;
      GroupRunOf(r[1..], post);
    } else {
      assert r + post == post;
    }
  }

  /** The first grouped number of a cell whose digits form one run. */
  lemma FirstGroupedFramed(pre: string, r: string, post: string)
    requires Grouped(r) && Framed(pre, post) && (|post| > 0 ==> post[0] != ',')
    ensures FirstGroupedNumber(pre + r + post) == Some(Number(DropCommas(r), ""))
  {
    var s := pre + r + post;
    assert s == pre + (r + post);
    FirstDigitAfter(pre, r + post);
    assert s[|pre|..] == r + post;
    GroupRunOf(r, post);
    assert (r + post)[..|r|] == r;
    assert (r + post)[|r|..] == post;
  }

  /** Dropping the separator of `a,bbb` leaves the digits of `1000 * a + b`. */
  lemma DropSeparator(a: nat, b: nat)
    requires a > 0 && b < 1000
    ensures Grouped(Render(a) + "," + Pad3(b))
    ensures AllDigits(DropCommas(Render(a) + "," + Pad3(b)))
    ensures DigitsValue(DropCommas(Render(a) + "," + Pad3(b))) == 1000 * a + b
  {
    SeparatorDropped(a, b);
    ValueAppend(Render(a), Pad3(b));
    RenderValue(a);
    Pad3Value(b);
  }

  /** `a,bbb` is one grouped run, and without its comma it is the two digit strings side by side. */
  lemma SeparatorDropped(a: nat, b: nat)
    requires a > 0 && b < 1000
    ensures Grouped(Render(a) + "," + Pad3(b))
    ensures DropCommas(Render(a) + "," + Pad3(b)) == Render(a) + Pad3(b)
  {
    var r := Render(a) + "," + Pad3(b);
    assert r[0] == Render(a)[0];
    DropCommasAppend(Render(a) + ",", Pad3(b));
    DropCommasAppend(Render(a), ",");
    DropCommasDigits(Render(a));
    DropCommasDigits(Pad3(b));
    assert DropCommas(",") == "";
  }

  /** `a,bbb` priced with the separator ignored gives `1000 * a + b`. */
  lemma GroupedPrice(pre: string, a: nat, b: nat, post: string)
    requires Framed(pre, post) && (|post| > 0 ==> post[0] != ',') && a > 0 && b < 1000
    ensures GroupedPriceNum(Some(pre + Render(a) + "," + Pad3(b) + post)) == Some((1000 * a + b) as real)
  {
    var r := Render(a) + "," + Pad3(b);
    assert pre + Render(a) + "," + Pad3(b) + post == pre + r + post;
    DropSeparator(a, b);
    FirstGroupedFramed(pre, r, post);
    IntegerValue(DropCommas(r));
  }

  lemma {:induction false} GroupRunAtLeast(s: string, n: nat)
    requires n <= |s| && forall j :: 0 <= j < n ==> IsDigit(s[j]) || s[j] == ','
    ensures GroupRun(s) >= n
  {
    if n > 0 {
      GroupRunAtLeast(s[1..], n - 1);
    }
  }

  lemma GroupedPriceCorrected()
    ensures GroupedPriceNum(Some("1,250元")) == Some(1250.0)
  {
    GroupedPrice("", 1, 250, "元");
    CorrectedText();
  }

  lemma CorrectedText()
    ensures "" + Render(1) + "," + Pad3(250) + "元" == "1,250元"
  {
    assert Render(1) == "1";
    assert Pad3(250) == "250";
  }

  /** Without separators the corrected reading agrees with the pattern as written. */
  lemma GroupedAgreesOnPlain(pre: string, n: nat, post: string)
    requires Framed(pre, post) && (|post| > 0 ==> post[0] != ',') && n > 0
    ensures GroupedPriceNum(Some(pre + Render(n) + post)) == PriceNum(Some(pre + Render(n) + post)) == Some(n as real)
  {
    RenderedPrice(pre, n, post);
    FirstGroupedFramed(pre, Render(n), post);
    DropCommasDigits(Render(n));
    RenderValue(n);
    IntegerValue(Render(n));
  }

  /** The two readings differ only through a comma: on comma-free text they agree. */
  lemma CommaFreeAgrees(s: string)
    requires ',' !in s
    ensures GroupedPriceNum(Some(s)) == PriceNum(Some(s))
  {
    match FirstDigit(s)
    case None =>
    case Some(i) =>
      var rest := s[i..];
      assert ',' !in rest;
      GroupRunNoComma(rest);
      var n := DigitRun(rest);
      assert ',' !in rest[..n];
      DropCommasNone(rest[..n]);
      assert FirstGroupedNumber(s) == FirstNumber(s);
  }

  lemma {:induction false} GroupRunNoComma(s: string)
    requires ',' !in s
    ensures GroupRun(s) == DigitRun(s)
    decreases |s|
  {
    if |s| > 0 {
      assert ',' !in s[1..];
      GroupRunNoComma(s[1..]);
    }
  }

  lemma {:induction false} DropCommasNone(s: string)
    requires ',' !in s
    ensures DropCommas(s) == s
    decreases |s|
  {
    if |s| > 0 {
      assert ',' !in s[1..];
      DropCommasNone(s[1..]);
      assert [s[0]] + s[1..] == s;
    }
  }
}
