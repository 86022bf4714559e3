/**
  The split tokenizer shared by manual entry and the image-OCR path
  (`parseSplits` and the OCR character filter in script.js).

  Free text is cut at every run of commas, newlines and white space, each token is
  trimmed and converted with JavaScript's `Number`, and only finite positive
  values are kept, in the order their tokens appear.
 */
module SplitParser {
  import opened Outcomes

  /** The characters matched by JavaScript's `\s` (white space and line terminators). */
  predicate IsSpace(c: char) {
    || c == ' ' || c == '\t' || c == '\n' || c == '\r' || c == '\U{000B}' || c == '\U{000C}'
    || c == '\U{00A0}' || c == '\U{1680}' || ('\U{2000}' <= c <= '\U{200A}')
    || c == '\U{2028}' || c == '\U{2029}' || c == '\U{202F}' || c == '\U{205F}'
    || c == '\U{3000}' || c == '\U{FEFF}'
  }

  /** The class `[,\n\s]` whose runs separate tokens. */
  predicate IsSeparator(c: char) {
    c == ',' || c == '\n' || IsSpace(c)
  }

  predicate NoSeparator(s: string) {
    forall j :: 0 <= j < |s| ==> !IsSeparator(s[j])
  }

  predicate AllSeparators(s: string) {
    forall j :: 0 <= j < |s| ==> IsSeparator(s[j])
  }

  /** Drops the run of separators at the front of `s`. */
  function SkipSeparators(s: string): (r: string)
    ensures |r| <= |s| && r == s[|s| - |r|..]
    ensures r == [] || !IsSeparator(r[0])
    ensures AllSeparators(s[..|s| - |r|])
  {
    if s != [] && IsSeparator(s[0]) then SkipSeparators(s[1..]) else s
  }

  /**
    Splitting at separators: the pieces between maximal runs of separators. A
    leading (trailing) run yields an empty first (last) piece, and the empty
    string yields one empty piece, as in JavaScript.
   */
  function Split(s: string): (tokens: seq<string>)
    ensures |tokens| >= 1
    ensures forall i, j :: 0 <= i < |tokens| && 0 <= j < |tokens[i]| ==> !IsSeparator(tokens[i][j])
    decreases |s|
  {
    if s == [] then [""]
    else if IsSeparator(s[0]) then [""] + Split(SkipSeparators(s[1..]))
    else
      var rest := Split(s[1..]);
      [[s[0]] + rest[0]] + rest[1..]
  }

  /** The characters of `s` that are not separators, in order. */
  function Content(s: string): string {
    if s == [] then "" else (if IsSeparator(s[0]) then "" else [s[0]]) + Content(s[1..])
  }

  function Concat(tokens: seq<string>): string {
    if tokens == [] then "" else tokens[0] + Concat(tokens[1..])
  }

  lemma {:induction false} ContentAppend(a: string, b: string)
    ensures Content(a + b) == Content(a) + Content(b)
    decreases |a|
  {
    if a == [] {
      assert a + b == b;
    } else {
      assert (a + b)[1..] == a[1..] + b;
      ContentAppend(a[1..], b);
    }
  }

  lemma {:induction false} ContentOfSeparators(s: string)
    requires AllSeparators(s)
    ensures Content(s) == ""
    decreases |s|
  {
    if s != [] {
      ContentOfSeparators(s[1..]);
    }
  }

  lemma ConcatCons(t: string, ts: seq<string>)
    ensures Concat([t] + ts) == t + Concat(ts)
  {
    assert ([t] + ts)[1..] == ts;
  }

  /** Skipping a run of separators loses no content. */
  lemma SkipSeparatorsContent(u: string)
    ensures Content(SkipSeparators(u)) == Content(u)
  {
    var r := SkipSeparators(u);
    var run := u[..|u| - |r|];
    assert u == run + r;
    ContentAppend(run, r);
    ContentOfSeparators(run);
  }

  /** Glueing a character onto the first token glues it onto the concatenation. */
  lemma ConcatGlued(c: char, rest: seq<string>)
    requires rest != []
    ensures Concat([[c] + rest[0]] + rest[1..]) == [c] + Concat(rest)
  {
    var t, ts := rest[0], rest[1..];
    var tail := Concat(ts);
    assert Concat([[c] + t] + ts) == ([c] + t) + tail by {
      ConcatCons([c] + t, ts);
    }
    assert Concat(rest) == t + tail by {
      assert [t] + ts == rest;
      ConcatCons(t, ts);
    }
    AppendAssociative([c], t, tail);
  }

  /**
    Associativity of concatenation, stated apart so that `ConcatGlued` sees it as
    one fact rather than re-deriving it among its own sequence terms.
   */
  lemma AppendAssociative(a: string, b: string, c: string)
    ensures (a + b) + c == a + (b + c)
  {
  }

  /** Splitting loses exactly the separators: the tokens, put back together, are the text without them. */
  lemma {:induction false} SplitKeepsContent(s: string)
    ensures Concat(Split(s)) == Content(s)
    decreases |s|
  {
    if s == [] {
    } else if IsSeparator(s[0]) {
      var r := SkipSeparators(s[1..]);
      SplitKeepsContent(r);
      SkipSeparatorsContent(s[1..]);
      ConcatCons("", Split(r));
    } else {
      SplitKeepsContent(s[1..]);
      ConcatGlued(s[0], Split(s[1..]));
    }
  }

  /** Only the first and the last piece can be empty: a run of separators never yields an empty token. */
  lemma {:induction false} SplitInnerTokensNonEmpty(s: string)
    ensures forall i :: 0 < i < |Split(s)| - 1 ==> Split(s)[i] != ""
    ensures Split(s)[0] == "" <==> (s == [] || IsSeparator(s[0]))
    decreases |s|
  {
    if s == [] {
    } else if IsSeparator(s[0]) {
      var r := SkipSeparators(s[1..]);
      SplitInnerTokensNonEmpty(r);
      assert Split(s) == [""] + Split(r);
    } else {
      SplitInnerTokensNonEmpty(s[1..]);
    }
  }

  lemma {:induction false} SkipSeparatorRun(seps: string, rest: string)
    requires AllSeparators(seps)
    requires rest == [] || !IsSeparator(rest[0])
    ensures SkipSeparators(seps + rest) == rest
    decreases |seps|
  {
    if seps == [] {
      assert seps + rest == rest;
    } else {
      assert (seps + rest)[1..] == seps[1..] + rest;
      SkipSeparatorRun(seps[1..], rest);
    }
  }

  /** A leading run of separators yields an empty first piece. */
  lemma SplitLeadingRun(seps: string, rest: string)
    requires seps != [] && AllSeparators(seps)
    requires rest == [] || !IsSeparator(rest[0])
    ensures Split(seps + rest) == [""] + Split(rest)
  {
    var s := seps + rest;
    assert IsSeparator(s[0]) && s[1..] == seps[1..] + rest;
    SkipSeparatorRun(seps[1..], rest);
  }

  /** A character that is not a separator joins the first piece of what follows it. */
  lemma SplitGlue(c: char, t: string)
    requires !IsSeparator(c)
    ensures Split([c] + t) == [[c] + Split(t)[0]] + Split(t)[1..]
  {
    assert ([c] + t)[1..] == t;
  }

  /** A separator-free piece followed by a run of separators is split off as one token. */
  lemma {:induction false} SplitAtSeparatorRun(tok: string, seps: string, rest: string)
    requires NoSeparator(tok)
    requires seps != [] && AllSeparators(seps)
    requires rest == [] || !IsSeparator(rest[0])
    ensures Split(tok + seps + rest) == [tok] + Split(rest)
    decreases |tok|
  {
    if tok == [] {
      assert tok + seps + rest == seps + rest;
      SplitLeadingRun(seps, rest);
    } else {
      var t := tok[1..] + seps + rest;
      assert tok + seps + rest == [tok[0]] + t;
      SplitGlue(tok[0], t);
      SplitAtSeparatorRun(tok[1..], seps, rest);
      assert [tok[0]] + tok[1..] == tok;
    }
  }

  lemma {:induction false} SplitSeparatorFree(tok: string)
    requires NoSeparator(tok)
    ensures Split(tok) == [tok]
    decreases |tok|
  {
    if tok != [] {
      SplitSeparatorFree(tok[1..]);
      assert [tok[0]] + tok[1..] == tok;
    }
  }

  /** `String.prototype.trim`: drops white space and line terminators at both ends. */
  function TrimStart(s: string): (r: string)
    ensures |r| <= |s|
  {
    if s != [] && IsSpace(s[0]) then TrimStart(s[1..]) else s
  }

  function TrimEnd(s: string): (r: string)
    ensures |r| <= |s|
  {
    if s != [] && IsSpace(s[|s| - 1]) then TrimEnd(s[..|s| - 1]) else s
  }

  function Trim(s: string): string {
    TrimEnd(TrimStart(s))
  }

  predicate IsDigit(c: char) {
    '0' <= c <= '9'
  }

  predicate AllDigits(s: string) {
    forall j :: 0 <= j < |s| ==> IsDigit(s[j])
  }

  function DigitValue(c: char): (d: nat)
    requires IsDigit(c)
    ensures d < 10
  {
    c as int - '0' as int
  }

  /** The value of a run of decimal digits, most significant first. */
  function DigitsValue(s: string): nat
    requires AllDigits(s)
  {
    if s == [] then 0 else DigitsValue(s[..|s| - 1]) * 10 + DigitValue(s[|s| - 1])
  }

  /** The value of the digits after a decimal point: "9" is 0.9, "05" is 0.05. */
  function FractionValue(s: string): (v: real)
    requires AllDigits(s)
    ensures 0.0 <= v < 1.0
  {
    if s == [] then 0.0 else (DigitValue(s[0]) as real + FractionValue(s[1..])) / 10.0
  }

  /** The index of the first '.' in `s`, or `|s|` when there is none. */
  function DotIndex(s: string): (p: nat)
    ensures p <= |s|
    ensures p < |s| ==> s[p] == '.'
    ensures forall j :: 0 <= j < p ==> s[j] != '.'
  {
    if s == [] || s[0] == '.' then 0 else 1 + DotIndex(s[1..])
  }

  /**
    The literal with the given digits before and after the point: both parts
    decimal digits and at least one digit in all.
   */
  function DecimalValue(whole: string, frac: string): (r: Option<real>)
    ensures r.Some? <==> AllDigits(whole) && AllDigits(frac) && (whole != [] || frac != [])
  {
    if AllDigits(whole) && AllDigits(frac) && (whole != [] || frac != []) then
      Some(DigitsValue(whole) as real + FractionValue(frac))
    else
      None
  }

  /** An unsigned decimal literal: digits, optionally a point and more digits, and at least one digit. */
  function ParseUnsigned(s: string): (r: Option<real>)
    ensures r.Some? ==> r.value >= 0.0
  {
    var p := DotIndex(s);
    DecimalValue(s[..p], if p < |s| then s[p + 1..] else "")
  }

  /**
    `Number(token)` on a trimmed token, restricted to decimal notation: the empty
    string is 0, an optional sign may precede an unsigned decimal literal, and
    anything else is not a number (None stands for NaN).
   */
  function ParseNumber(tok: string): (r: Option<real>)
    ensures r.Some? && tok != [] && tok[0] != '-' ==> r.value >= 0.0
  {
    if tok == [] then Some(0.0)
    else if tok[0] == '+' then ParseUnsigned(tok[1..])
    else if tok[0] == '-' then
      match ParseUnsigned(tok[1..])
      case Some(v) => Some(-v)
      case None => None
    else ParseUnsigned(tok)
  }

  /** The filter of `parseSplits`: a finite number greater than zero. */
  predicate Accepted(v: Option<real>) {
    v.Some? && v.value > 0.0
  }

  /** Every token trimmed and converted to a number, in order. */
  function Numbers(tokens: seq<string>): (vals: seq<Option<real>>)
    ensures |vals| == |tokens|
  {
    seq(|tokens|, i requires 0 <= i < |tokens| => ParseNumber(Trim(tokens[i])))
  }

  /** The values that pass the filter, in their original order. */
  function KeepPositive(vals: seq<Option<real>>): (kept: seq<real>)
    ensures |kept| <= |vals|
    ensures forall i :: 0 <= i < |kept| ==> kept[i] > 0.0
  {
    if vals == [] then []
    else (if Accepted(vals[0]) then [vals[0].value] else []) + KeepPositive(vals[1..])
  }

  /** `parseSplits`: split the text into tokens, read each as a number and keep the positive ones, in order. */
  function ParseSplits(raw: string): (splits: seq<real>)
    ensures forall i :: 0 <= i < |splits| ==> splits[i] > 0.0
  {
    KeepPositive(Numbers(Split(raw)))
  }

  /** Filtering distributes over concatenation, so kept values stay in token order. */
  lemma {:induction false} KeepPositiveAppend(a: seq<Option<real>>, b: seq<Option<real>>)
    ensures KeepPositive(a + b) == KeepPositive(a) + KeepPositive(b)
    decreases |a|
  {
    if a == [] {
      assert a + b == b;
    } else {
      assert (a + b)[1..] == a[1..] + b;
      KeepPositiveAppend(a[1..], b);
    }
  }

  /** A value is kept exactly when some token parses to it and it is positive. */
  lemma {:induction false} KeepPositiveMembership(vals: seq<Option<real>>, x: real)
    ensures x in KeepPositive(vals) <==> exists i :: 0 <= i < |vals| && vals[i] == Some(x) && x > 0.0
    decreases |vals|
  {
    if vals != [] {
      KeepPositiveMembership(vals[1..], x);
      if x in KeepPositive(vals[1..]) {
        var i :| 0 <= i < |vals[1..]| && vals[1..][i] == Some(x) && x > 0.0;
        assert vals[i + 1] == Some(x);
      }
      if exists i :: 0 <= i < |vals| && vals[i] == Some(x) && x > 0.0 {
        var i :| 0 <= i < |vals| && vals[i] == Some(x) && x > 0.0;
        if i > 0 {
          assert vals[1..][i - 1] == Some(x);
        }
      }
    }
  }

  lemma NumbersAppend(a: seq<string>, b: seq<string>)
    ensures Numbers(a + b) == Numbers(a) + Numbers(b)
  {
  }

  /**
    A token that is not a finite positive number (such as "1:02", "-3" or the
    empty piece) is dropped without disturbing the tokens around it.
   */
  lemma RejectedTokenDropped(before: seq<string>, tok: string, after: seq<string>)
    requires !Accepted(ParseNumber(Trim(tok)))
    ensures KeepPositive(Numbers(before + [tok] + after)) == KeepPositive(Numbers(before + after))
  {
    var nb, nt, na := Numbers(before), Numbers([tok]), Numbers(after);
    assert Numbers(before + [tok] + after) == nb + nt + na by {
      NumbersAppend(before + [tok], after);
      NumbersAppend(before, [tok]);
    }
    assert Numbers(before + after) == nb + na by {
      NumbersAppend(before, after);
    }
    assert KeepPositive(nt) == [] by {
      assert nt == [ParseNumber(Trim(tok))];
      assert nt[1..] == [];
    }
    calc {
      KeepPositive(nb + nt + na);
    ==  { KeepPositiveAppend(nb + nt, na); }
      KeepPositive(nb + nt) + KeepPositive(na);
    ==  { KeepPositiveAppend(nb, nt); }
      KeepPositive(nb) + KeepPositive(nt) + KeepPositive(na);
    ==  { assert KeepPositive(nb) + [] == KeepPositive(nb); }
      KeepPositive(nb) + KeepPositive(na);
    ==  { KeepPositiveAppend(nb, na); }
      KeepPositive(nb + na);
    }
  }

  lemma TrimSpaceFree(s: string)
    requires forall j :: 0 <= j < |s| ==> !IsSpace(s[j])
    ensures Trim(s) == s
  {
  }

  /** Three separator-free tokens joined by runs of separators split back into the three. */
  lemma SplitThree(a: string, sep1: string, b: string, sep2: string, c: string)
    requires NoSeparator(a) && NoSeparator(b) && NoSeparator(c)
    requires b != [] && c != []
    requires sep1 != [] && AllSeparators(sep1) && sep2 != [] && AllSeparators(sep2)
    ensures Split(a + sep1 + (b + sep2 + c)) == [a, b, c]
  {
    SplitSeparatorFree(c);
    SplitAtSeparatorRun(b, sep2, c);
    SplitAtSeparatorRun(a, sep1, b + sep2 + c);
  }

  lemma SplitExampleText()
    ensures Split("1:02, 58.9\n59.5") == ["1:02", "58.9", "59.5"]
  {
    assert "1:02, 58.9\n59.5" == "1:02" + ", " + ("58.9" + "\n" + "59.5");
    SplitThree("1:02", ", ", "58.9", "\n", "59.5");
  }

  lemma ParseMalformedToken()
    ensures ParseNumber(Trim("1:02")) == None
  {
    TrimSpaceFree("1:02");
    assert DotIndex("1:02") == 4;
    assert !AllDigits("1:02") by {
      assert !IsDigit("1:02"[1]);
    }
  }

  lemma Parse589()
    ensures ParseNumber(Trim("58.9")) == Some(58.9)
  {
    TrimSpaceFree("58.9");
    assert DotIndex("58.9") == 2;
    assert "58.9"[..2] == "58" && "58.9"[3..] == "9";
    assert DigitsValue("58") == 58 by {
      assert "58"[..1] == "5";
      assert "5"[..0] == "";
    }
    assert FractionValue("9") == 0.9 by {
      assert "9"[1..] == "";
    }
  }

  lemma Parse595()
    ensures ParseNumber(Trim("59.5")) == Some(59.5)
  {
    TrimSpaceFree("59.5");
    assert DotIndex("59.5") == 2;
    assert "59.5"[..2] == "59" && "59.5"[3..] == "5";
    assert DigitsValue("59") == 59 by {
      assert "59"[..1] == "5";
      assert "5"[..0] == "";
    }
    assert FractionValue("5") == 0.5 by {
      assert "5"[1..] == "";
    }
  }

  lemma NumbersOfThree(a: string, b: string, c: string)
    ensures Numbers([a, b, c]) == [ParseNumber(Trim(a)), ParseNumber(Trim(b)), ParseNumber(Trim(c))]
  {
  }

  lemma NumbersExample(tokens: seq<string>)
    requires tokens == ["1:02", "58.9", "59.5"]
    ensures Numbers(tokens) == [None, Some(58.9), Some(59.5)]
  {
    NumbersOfThree("1:02", "58.9", "59.5");
    ParseMalformedToken();
    Parse589();
    Parse595();
  }

  lemma KeepExample(vals: seq<Option<real>>)
    requires vals == [None, Some(58.9), Some(59.5)]
    ensures KeepPositive(vals) == [58.9, 59.5]
  {
    assert KeepPositive(vals[2..]) == [59.5] by {
      assert vals[2..] == [Some(59.5)];
      assert vals[2..][1..] == [];
    }
    assert KeepPositive(vals[1..]) == [58.9, 59.5] by {
      assert vals[1..][1..] == vals[2..];
    }
  }

  /** The example of manual entry: "1:02, 58.9\n59.5" gives [58.9, 59.5], the malformed "1:02" dropped. */
  lemma ParseSplitsExample()
    ensures ParseSplits("1:02, 58.9\n59.5") == [58.9, 59.5]
  {
    SplitExampleText();
    NumbersExample(Split("1:02, 58.9\n59.5"));
    KeepExample(Numbers(Split("1:02, 58.9\n59.5")));
  }

  // ---------------------------------------------------------------------------
  // Writing splits as text and reading them back

  function DigitChar(d: nat): (c: char)
    requires d < 10
    ensures IsDigit(c) && DigitValue(c) == d
  {
    ('0' as int + d) as char
  }

  /** The decimal numeral of `n`. */
  function NaturalText(n: nat): (s: string)
    ensures s != [] && AllDigits(s)
  {
    if n < 10 then [DigitChar(n)] else NaturalText(n / 10) + [DigitChar(n % 10)]
  }

  lemma {:induction false} NaturalTextValue(n: nat)
    ensures DigitsValue(NaturalText(n)) == n
  {
    if n >= 10 {
      var s := NaturalText(n);
      NaturalTextValue(n / 10);
      assert s[..|s| - 1] == NaturalText(n / 10);
    }
  }

  /** A time of `c` hundredths of a second written with two decimals, as in "58.90". */
  function CentisText(c: nat): (s: string)
    ensures NoSeparator(s) && s != [] && IsDigit(s[0])
  {
    NaturalText(c / 100) + "." + [DigitChar((c / 10) % 10), DigitChar(c % 10)]
  }

  /** A list of times in hundredths written as "60.20, 58.90, ...". */
  function FormatSplits(cs: seq<nat>): string {
    if cs == [] then ""
    else if |cs| == 1 then CentisText(cs[0])
    else CentisText(cs[0]) + ", " + FormatSplits(cs[1..])
  }

  lemma CentisArithmetic(c: nat)
    ensures (c / 100) as real + (((c / 10) % 10) as real + (c % 10) as real / 10.0) / 10.0 == c as real / 100.0
  {
    var q := c / 10;
    assert c == 10 * q + c % 10;
    assert q == 10 * (q / 10) + q % 10;
    assert q / 10 == c / 100;
  }

  /** The first point of `s` is at p when s[p] is a point and nothing before it is. */
  lemma DotIndexIs(s: string, p: nat)
    requires p < |s| && s[p] == '.'
    requires forall j :: 0 <= j < p ==> s[j] != '.'
    ensures DotIndex(s) == p
  {
  }

  /** In digits, a point and more digits, the first point follows the digits. */
  lemma DecimalParts(whole: string, frac: string)
    requires AllDigits(whole)
    ensures var s := whole + "." + frac;
      DotIndex(s) == |whole| && s[..|whole|] == whole && s[|whole| + 1..] == frac
  {
    var s := whole + "." + frac;
    DotIndexIs(s, |whole|);
    assert s[..|whole|] == whole;
    assert s[|whole| + 1..] == frac;
  }

  lemma DecimalValueOfDigits(whole: string, frac: string)
    requires AllDigits(whole) && AllDigits(frac) && (whole != [] || frac != [])
    ensures DecimalValue(whole, frac) == Some(DigitsValue(whole) as real + FractionValue(frac))
  {
  }

  /** Digits, a point and anything after it: the literal is read with the digits as its whole part. */
  lemma ParseUnsignedDecimal(whole: string, frac: string)
    requires AllDigits(whole)
    ensures ParseUnsigned(whole + "." + frac) == DecimalValue(whole, frac)
  {
    var s := whole + "." + frac;
    DecimalParts(whole, frac);
    assert ParseUnsigned(s) == DecimalValue(s[..|whole|], s[|whole| + 1..]);
  }

  /** s is digits, a point and digits, with at least one digit in all. */
  predicate PointLiteral(s: string, whole: string, frac: string) {
    s == whole + "." + frac && AllDigits(whole) && AllDigits(frac) && (whole != [] || frac != [])
  }

  /**
    The grammar of an unsigned literal: a non-empty run of digits, or digits, a
    point and digits with at least one digit in all. A plain digit run reads as
    its value.
   */
  lemma ParseUnsignedAccepts(s: string)
    ensures ParseUnsigned(s).Some? <==>
      (s != [] && AllDigits(s)) || exists whole, frac :: PointLiteral(s, whole, frac)
    ensures s != [] && AllDigits(s) ==> ParseUnsigned(s) == Some(DigitsValue(s) as real)
  {
    if exists whole, frac :: PointLiteral(s, whole, frac) {
      var whole, frac :| PointLiteral(s, whole, frac);
      PointLiteralParses(s, whole, frac);
    } else if DotIndex(s) < |s| {
      PointParts(s, DotIndex(s));
      PointNotDigits(s, DotIndex(s));
    } else {
      DigitRunParses(s);
    }
  }

  /** A point literal is read by its parts, and it is not a plain digit run. */
  lemma PointLiteralParses(s: string, whole: string, frac: string)
    requires PointLiteral(s, whole, frac)
    ensures ParseUnsigned(s).Some? && !AllDigits(s)
  {
    ParseUnsignedDecimal(whole, frac);
    PointNotDigits(s, |whole|);
  }

  /** Text with a point is read only as the point literal around its first point. */
  lemma PointParts(s: string, p: nat)
    requires p == DotIndex(s) && p < |s|
    ensures ParseUnsigned(s).Some? ==> PointLiteral(s, s[..p], s[p + 1..])
  {
    AroundPoint(s, p);
    assert ParseUnsigned(s) == DecimalValue(s[..p], s[p + 1..]);
  }

  lemma AroundPoint(s: string, p: nat)
    requires p < |s| && s[p] == '.'
    ensures s == s[..p] + "." + s[p + 1..]
  {
  }

  /** Text with a point is not a digit run. */
  lemma PointNotDigits(s: string, p: nat)
    requires p < |s| && s[p] == '.'
    ensures !AllDigits(s)
  {
    assert !IsDigit(s[p]);
  }

  /** Text without a point is read as a digit run. */
  lemma DigitRunParses(s: string)
    requires DotIndex(s) == |s|
    ensures ParseUnsigned(s).Some? <==> s != [] && AllDigits(s)
    ensures s != [] && AllDigits(s) ==> ParseUnsigned(s) == Some(DigitsValue(s) as real)
  {
    assert s[..|s|] == s;
  }

  /** Digits and points contain no white space, so trimming leaves them alone. */
  lemma DecimalTextTrimmed(whole: string, frac: string)
    requires AllDigits(whole) && AllDigits(frac)
    ensures Trim(whole + "." + frac) == whole + "." + frac
  {
    var s := whole + "." + frac;
    assert forall j :: 0 <= j < |s| ==> IsDigit(s[j]) || s[j] == '.';
    TrimSpaceFree(s);
  }

  /** A token that starts with a digit carries no sign. */
  /** A token that starts with neither sign is read as an unsigned literal. */
  lemma ParseNumberUnsigned(tok: string)
    requires tok != [] && tok[0] != '+' && tok[0] != '-'
    ensures ParseNumber(tok) == ParseUnsigned(tok)
  {
  }

  /**
    Digits, a point and digits, with at least one digit in all, parse as the whole
    part plus the fraction; ".5" reads as 0.5 and "7." as 7.
   */
  lemma DecimalTextParses(whole: string, frac: string)
    requires AllDigits(whole) && AllDigits(frac) && (whole != [] || frac != [])
    ensures ParseNumber(Trim(whole + "." + frac)) == Some(DigitsValue(whole) as real + FractionValue(frac))
  {
    var s := whole + "." + frac;
    DecimalTextTrimmed(whole, frac);
    assert s[0] == if whole == [] then '.' else whole[0];
    ParseNumberUnsigned(s);
    ParseUnsignedDecimal(whole, frac);
    DecimalValueOfDigits(whole, frac);
  }

  lemma CentisTextParses(c: nat)
    ensures ParseNumber(Trim(CentisText(c))) == Some(c as real / 100.0)
  {
    var d1, d2 := DigitChar((c / 10) % 10), DigitChar(c % 10);
    DecimalTextParses(NaturalText(c / 100), [d1, d2]);
    NaturalTextValue(c / 100);
    assert FractionValue([d2]) == (c % 10) as real / 10.0 by {
      assert [d2][1..] == [];
    }
    assert FractionValue([d1, d2]) == (((c / 10) % 10) as real + (c % 10) as real / 10.0) / 10.0 by {
      assert [d1, d2][1..] == [d2];
    }
    CentisArithmetic(c);
  }

  lemma {:induction false} SplitFormatted(cs: seq<nat>)
    requires cs != []
    ensures Split(FormatSplits(cs)) == seq(|cs|, i requires 0 <= i < |cs| => CentisText(cs[i]))
    decreases |cs|
  {
    if |cs| == 1 {
      SplitSeparatorFree(CentisText(cs[0]));
    } else {
      var rest := FormatSplits(cs[1..]);
      SplitFormatted(cs[1..]);
      assert rest != [] && IsDigit(rest[0]) by {
        assert Split(rest)[0] == CentisText(cs[1]);
        SplitInnerTokensNonEmpty(rest);
      }
      SplitAtSeparatorRun(CentisText(cs[0]), ", ", rest);
    }
  }

  lemma {:induction false} KeepAllAccepted(vals: seq<Option<real>>)
    requires forall i :: 0 <= i < |vals| ==> vals[i].Some? && vals[i].value > 0.0
    ensures |KeepPositive(vals)| == |vals|
    ensures forall i :: 0 <= i < |vals| ==> KeepPositive(vals)[i] == vals[i].value
    decreases |vals|
  {
    if vals != [] {
      KeepAllAccepted(vals[1..]);
    }
  }

  lemma NumbersOfCentis(tokens: seq<string>, cs: seq<nat>)
    requires |tokens| == |cs|
    requires forall i :: 0 <= i < |cs| ==> ParseNumber(Trim(tokens[i])) == Some(cs[i] as real / 100.0)
    ensures forall i :: 0 <= i < |cs| ==> Numbers(tokens)[i] == Some(cs[i] as real / 100.0)
  {
  }

  /** Round trip: positive times written as text and parsed back are recovered exactly, in order. */
  lemma NumbersOfFormatted(cs: seq<nat>)
    requires cs != []
    ensures |Numbers(Split(FormatSplits(cs)))| == |cs|
    ensures forall i :: 0 <= i < |cs| ==> Numbers(Split(FormatSplits(cs)))[i] == Some(cs[i] as real / 100.0)
  {
    var tokens := Split(FormatSplits(cs));
    SplitFormatted(cs);
    CentisTokensParse(tokens, cs);
    NumbersOfCentis(tokens, cs);
  }

  lemma CentisTokensParse(tokens: seq<string>, cs: seq<nat>)
    requires |tokens| == |cs|
    requires forall i :: 0 <= i < |cs| ==> tokens[i] == CentisText(cs[i])
    ensures forall i :: 0 <= i < |cs| ==> ParseNumber(Trim(tokens[i])) == Some(cs[i] as real / 100.0)
  {
    forall i | 0 <= i < |cs|
      ensures ParseNumber(Trim(tokens[i])) == Some(cs[i] as real / 100.0)
    {
      CentisTextParses(cs[i]);
    }
  }

  lemma KeepScaled(vals: seq<Option<real>>, cs: seq<nat>)
    requires |vals| == |cs|
    requires forall i :: 0 <= i < |cs| ==> vals[i] == Some(cs[i] as real / 100.0)
    requires forall i :: 0 <= i < |cs| ==> cs[i] > 0
    ensures KeepPositive(vals) == seq(|cs|, i requires 0 <= i < |cs| => cs[i] as real / 100.0)
  {
    forall i | 0 <= i < |vals|
      ensures vals[i].Some? && vals[i].value > 0.0
    {
      assert vals[i] == Some(cs[i] as real / 100.0);
    }
    KeepAllAccepted(vals);
    var kept, scaled := KeepPositive(vals), seq(|cs|, i requires 0 <= i < |cs| => cs[i] as real / 100.0);
    assert |kept| == |scaled|;
    forall i | 0 <= i < |kept|
      ensures kept[i] == scaled[i]
    {
      assert kept[i] == vals[i].value;
    }
  }

  lemma ParseEmptyText()
    ensures ParseSplits("") == []
  {
    assert Split("") == [""];
    assert Numbers([""]) == [Some(0.0)];
  }

  lemma FormatThenParse(cs: seq<nat>)
    requires forall i :: 0 <= i < |cs| ==> cs[i] > 0
    ensures ParseSplits(FormatSplits(cs)) == seq(|cs|, i requires 0 <= i < |cs| => cs[i] as real / 100.0)
  {
    if cs == [] {
      ParseEmptyText();
    } else {
      NumbersOfFormatted(cs);
      KeepScaled(Numbers(Split(FormatSplits(cs))), cs);
    }
  }

  // ---------------------------------------------------------------------------
  // The OCR path

  /** The characters `[0-9.\s,]` that the OCR filter keeps. */
  predicate OcrKeeps(c: char) {
    IsDigit(c) || c == '.' || IsSpace(c) || c == ','
  }

  /** The OCR filter: every character outside `OcrKeeps` becomes a space. */
  function OcrClean(text: string): (cleaned: string)
    ensures |cleaned| == |text|
    ensures forall i :: 0 <= i < |text| ==> OcrKeeps(cleaned[i])
    ensures forall i :: 0 <= i < |text| && OcrKeeps(text[i]) ==> cleaned[i] == text[i]
    ensures forall i :: 0 <= i < |text| && !OcrKeeps(text[i]) ==> IsSeparator(cleaned[i])
  {
    seq(|text|, i requires 0 <= i < |text| => if OcrKeeps(text[i]) then text[i] else ' ')
  }

  /** Filtering twice changes nothing more. */
  lemma OcrCleanIdempotent(text: string)
    ensures OcrClean(OcrClean(text)) == OcrClean(text)
  {
  }

  /** Text already made of digits, points, commas and white space passes the filter unchanged. */
  lemma OcrCleanKeepsFormattedSplits(cs: seq<nat>)
    ensures OcrClean(FormatSplits(cs)) == FormatSplits(cs)
  {
    FormattedSplitsChars(cs);
  }

  lemma {:induction false} FormattedSplitsChars(cs: seq<nat>)
    ensures forall j :: 0 <= j < |FormatSplits(cs)| ==> OcrKeeps(FormatSplits(cs)[j])
    decreases |cs|
  {
    if |cs| > 1 {
      FormattedSplitsChars(cs[1..]);
      var a, b := CentisText(cs[0]), FormatSplits(cs[1..]);
      forall j | 0 <= j < |a + ", " + b|
        ensures OcrKeeps((a + ", " + b)[j])
      {
        if j >= |a| + 2 {
          assert (a + ", " + b)[j] == b[j - |a| - 2];
        }
      }
    }
  }

  /** After the filter every token is made of digits and points only: no sign, exponent or letter reaches `Number`. */
  lemma {:induction false} OcrTokensAreUnsigned(s: string)
    requires forall j :: 0 <= j < |s| ==> OcrKeeps(s[j])
    ensures forall i, j :: 0 <= i < |Split(s)| && 0 <= j < |Split(s)[i]| ==>
      IsDigit(Split(s)[i][j]) || Split(s)[i][j] == '.'
    decreases |s|
  {
    if s == [] {
    } else if IsSeparator(s[0]) {
      var r := SkipSeparators(s[1..]);
      OcrTokensAreUnsigned(r);
      assert Split(s) == [""] + Split(r);
    } else {
      OcrTokensAreUnsigned(s[1..]);
    }
  }

  /** The split times read from OCR'd text (script.js line 297). */
  function OcrSplits(text: string): (splits: seq<real>)
    ensures forall i :: 0 <= i < |splits| ==> splits[i] > 0.0
  {
    ParseSplits(OcrClean(text))
  }

  /** Round trip through the OCR path: formatted times survive the filter and parse back exactly. */
  lemma OcrReadsFormattedSplits(cs: seq<nat>)
    requires forall i :: 0 <= i < |cs| ==> cs[i] > 0
    ensures OcrSplits(FormatSplits(cs)) == seq(|cs|, i requires 0 <= i < |cs| => cs[i] as real / 100.0)
  {
    OcrCleanKeepsFormattedSplits(cs);
    FormatThenParse(cs);
  }
}
