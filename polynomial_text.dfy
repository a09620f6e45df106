/** The text form read by the parsing constructor of Polynomial: the string
    operations it applies (replaceAll, split and trim, all on literal
    separators), the classification of one term as c, cx or cx^p, the
    decimal parser for degrees, and the terms a whole text adds. */
module PolynomialText {
  import opened Terms

  datatype Option<T> = None | Some(value: T)

  /** One parsed term: its degree and its coefficient. */
  type Entry = (nat, real)

  /** Every occurrence of c removed (replaceAll(" ", ""), replace(var, "")). */
  function RemoveAll(s: string, c: char): (r: string)
    ensures c !in r
    ensures forall ch :: ch != c ==> (ch in r <==> ch in s)
    ensures |r| <= |s|
  {
    if s == [] then [] else (if s[0] == c then [] else [s[0]]) + RemoveAll(s[1..], c)
  }

  /** Every '-' preceded by a '+' (replaceAll("-", "+-")), so that splitting at
      '+' keeps each sign with the term it belongs to. */
  function MarkSigns(s: string): (r: string)
    ensures |s| > 0 && s[0] == '-' ==> |r| >= 2 && r[..2] == "+-"
    ensures |s| > 0 && s[0] != '-' ==> |r| > 0 && r[0] == s[0]
    ensures RemoveAll(r, '+') == RemoveAll(s, '+')
  {
    if s == [] then []
    else
      var rest := MarkSigns(s[1..]);
      if s[0] == '-' then
        assert ("+-" + rest)[1..] == "-" + rest;
        "+-" + rest
      else
        assert ([s[0]] + rest)[1..] == rest;
        [s[0]] + rest
  }

  /** The pieces of s between the occurrences of sep, found left to right,
      empty pieces included: what a regex split on a literal finds. */
  function SplitOn(s: string, sep: string): (ps: seq<string>)
    requires |sep| > 0
    ensures |ps| >= 1
    decreases |s|
  {
    if |s| < |sep| then [s]
    else if s[..|sep|] == sep then [""] + SplitOn(s[|sep|..], sep)
    else
      var rest := SplitOn(s[1..], sep);
      [[s[0]] + rest[0]] + rest[1..]
  }

  /** The pieces put back together with sep between them. */
  function Join(ps: seq<string>, sep: string): string
    requires |ps| >= 1
  {
    if |ps| == 1 then ps[0] else ps[0] + sep + Join(ps[1..], sep)
  }

  lemma JoinFirst(x: string, ps: seq<string>, sep: string)
    requires |ps| >= 1
    ensures Join([x + ps[0]] + ps[1..], sep) == x + Join(ps, sep)
  {
    var qs := [x + ps[0]] + ps[1..];
    assert qs[1..] == ps[1..];
  }

  /** Splitting loses nothing: joining the pieces gives the text back. */
  lemma {:induction false} JoinSplit(s: string, sep: string)
    requires |sep| > 0
    ensures Join(SplitOn(s, sep), sep) == s
    decreases |s|
  {
    if |s| < |sep| {
    } else if s[..|sep|] == sep {
      JoinSplit(s[|sep|..], sep);
      var ps := [""] + SplitOn(s[|sep|..], sep);
      assert ps[1..] == SplitOn(s[|sep|..], sep);
      assert s == sep + s[|sep|..];
    } else {
      var rest := SplitOn(s[1..], sep);
      JoinSplit(s[1..], sep);
      JoinFirst([s[0]], rest, sep);
      assert s == [s[0]] + s[1..];
    }
  }

  /** A piece of a split at a single character never holds that character. */
  lemma {:induction false} SplitPiecesAvoid(s: string, c: char)
    ensures forall i :: 0 <= i < |SplitOn(s, [c])| ==> c !in SplitOn(s, [c])[i]
    decreases |s|
  {
    if |s| >= 1 {
      SplitPiecesAvoid(s[1..], c);
      if s[..1] != [c] {
        var rest := SplitOn(s[1..], [c]);
        assert s[0] != c by { assert s[..1] == [s[0]]; }
        assert c !in [s[0]] + rest[0];
      }
    }
  }

  /** Trailing empty pieces removed, as split(regex) does. */
  function DropTrailingEmpty(ps: seq<string>): (r: seq<string>)
    ensures |r| <= |ps| && r == ps[..|r|]
    ensures r != [] ==> r[|r| - 1] != ""
    ensures forall i :: |r| <= i < |ps| ==> ps[i] == ""
  {
    if ps == [] then []
    else if ps[|ps| - 1] == "" then DropTrailingEmpty(ps[..|ps| - 1])
    else ps
  }

  /** String.split on a literal separator: the whole text when the separator
      does not occur, otherwise the pieces without the trailing empty ones. */
  function JavaSplit(s: string, sep: string): seq<string>
    requires |sep| > 0
  {
    var ps := SplitOn(s, sep);
    if |ps| == 1 then ps else DropTrailingEmpty(ps)
  }

  /** When the separator does not occur, split gives the text itself. */
  lemma JavaSplitNoMatch(s: string, sep: string)
    requires |sep| > 0 && |SplitOn(s, sep)| == 1
    ensures JavaSplit(s, sep) == [s]
  {
    JoinSplit(s, sep);
  }

  /** Java's trim: the characters up to ' ' removed from both ends. */
  function Trim(s: string): (r: string)
    ensures |r| <= |s|
    ensures r != [] ==> r[0] > ' ' && r[|r| - 1] > ' '
    ensures (forall i :: 0 <= i < |s| ==> s[i] > ' ') ==> r == s
  {
    if s == [] then []
    else if s[0] <= ' ' then Trim(s[1..])
    else if s[|s| - 1] <= ' ' then Trim(s[..|s| - 1])
    else s
  }

  predicate IsDigit(c: char)
  {
    '0' <= c <= '9'
  }

  predicate AllDigits(s: string)
  {
    forall i :: 0 <= i < |s| ==> IsDigit(s[i])
  }

  /** The value of a decimal digit string, most significant digit first. */
  function DigitsValue(s: string): nat
    requires AllDigits(s)
  {
    if s == [] then 0 else 10 * DigitsValue(s[..|s| - 1]) + (s[|s| - 1] as int - '0' as int)
  }

  const MaxInt: nat := 0x7fff_ffff

  /** Integers.parse, taken to read a decimal int: the digit strings whose
      value fits in 32 bits parse, everything else is an error. */
  function ParseDecimal(s: string): (r: Option<nat>)
    ensures r.Some? <==> s != [] && AllDigits(s) && DigitsValue(s) <= MaxInt
    ensures r.Some? ==> r.value <= MaxInt
  {
    if s != [] && AllDigits(s) && DigitsValue(s) <= MaxInt then Some(DigitsValue(s)) else None
  }

  /** The decimal digits of n, most significant first. */
  function DecimalText(n: nat): (s: string)
    ensures s != [] && AllDigits(s)
  {
    (if n < 10 then "" else DecimalText(n / 10)) + [('0' as int + n % 10) as char]
  }

  /** Reading back the digits of a degree that fits an int gives the degree. */
  lemma {:induction false} ParseDecimalText(n: nat)
    requires n <= MaxInt
    ensures ParseDecimal(DecimalText(n)) == Some(n)
  {
    DigitsOfText(n);
  }

  lemma {:induction false} DigitsOfText(n: nat)
    ensures DigitsValue(DecimalText(n)) == n
  {
    var s := DecimalText(n);
    assert s[..|s| - 1] == if n < 10 then "" else DecimalText(n / 10);
    if n >= 10 {
      DigitsOfText(n / 10);
    }
  }

  /** A variable name the split at var^ reads literally: one ASCII letter. */
  predicate IsVariableName(v: char)
  {
    'a' <= v <= 'z' || 'A' <= v <= 'Z'
  }

  /** The coefficient text and the degree text of one term: without the
      variable the term is a constant (degree "0"); with the variable but no
      '^' the variable is dropped and the degree is "1"; otherwise the pieces
      around var^. */
  function TermPieces(v: char, term: string): seq<string>
  {
    if v in term then
      if '^' in term then JavaSplit(term, [v, '^'])
      else [RemoveAll(term, v), "1"]
    else [term, "0"]
  }

  /** An empty coefficient reads as 1 and a lone '-' as -1; anything else goes,
      trimmed, to parseReal (Doubles.parse), whose None is its exception. */
  function CoefficientOf(text: string, parseReal: string -> Option<real>): Option<real>
  {
    if text == "" then Some(1.0)
    else if text == "-" then Some(-1.0)
    else parseReal(Trim(text))
  }

  /** One term as the constructor reads it. None stands for the exception it
      throws: fewer than two pieces around var^, or a number that does not parse. */
  function ParseTerm(v: char, term: string, parseReal: string -> Option<real>): Option<Entry>
  {
    var split := TermPieces(v, term);
    if |split| < 2 then None
    else
      var value := CoefficientOf(split[0], parseReal);
      var degree := ParseDecimal(Trim(split[1]));
      if value.None? || degree.None? then None
      else Some((degree.value, value.value))
  }

  /** The degree texts the constructor supplies itself parse as 0 and 1. */
  lemma ParseFixedDegrees()
    ensures ParseDecimal(Trim("0")) == Some(0)
    ensures ParseDecimal(Trim("1")) == Some(1)
  {
    assert Trim("0") == "0" && Trim("1") == "1";
    assert DigitsValue("0") == 0 by { assert "0"[..0] == ""; }
    assert DigitsValue("1") == 1 by { assert "1"[..0] == ""; }
  }

  /** A term without the variable is a constant, a term with the variable but
      no '^' has degree 1. */
  lemma TermDegree(v: char, term: string, parseReal: string -> Option<real>)
    ensures v !in term && ParseTerm(v, term, parseReal).Some? ==> ParseTerm(v, term, parseReal).value.0 == 0
    ensures v in term && '^' !in term && ParseTerm(v, term, parseReal).Some?
            ==> ParseTerm(v, term, parseReal).value.0 == 1
  {
    ParseFixedDegrees();
  }

  /** The coefficient-free terms: "" is 1, "-" is -1, the variable alone is x
      and "-" before the variable is -x. */
  lemma UnitTerms(v: char, parseReal: string -> Option<real>)
    requires IsVariableName(v)
    ensures ParseTerm(v, "", parseReal) == Some((0, 1.0))
    ensures ParseTerm(v, "-", parseReal) == Some((0, -1.0))
    ensures ParseTerm(v, [v], parseReal) == Some((1, 1.0))
    ensures ParseTerm(v, ['-', v], parseReal) == Some((1, -1.0))
  {
    ParseFixedDegrees();
    assert RemoveAll([v], v) == "" by { assert [v][1..] == ""; }
    assert RemoveAll(['-', v], v) == "-" by {
      assert ['-', v][1..] == [v];
      assert [v][1..] == "";
    }
    assert '^' !in [v] && '^' !in ['-', v];
  }

  /** Every term parsed in order, or None as soon as one fails. */
  function ParseAll(tokens: seq<string>, parse: string -> Option<Entry>): (r: Option<seq<Entry>>)
    ensures r.Some? <==> forall i :: 0 <= i < |tokens| ==> parse(tokens[i]).Some?
    ensures r.Some? ==> |r.value| == |tokens|
                        && forall i :: 0 <= i < |tokens| ==> parse(tokens[i]) == Some(r.value[i])
  {
    if tokens == [] then Some([])
    else
      var init := ParseAll(tokens[..|tokens| - 1], parse);
      var last := parse(tokens[|tokens| - 1]);
      assert forall i :: 0 <= i < |tokens| - 1 ==> tokens[..|tokens| - 1][i] == tokens[i];
      if init.None? || last.None? then None else Some(init.value + [last.value])
  }

  /** A term that does not parse makes the whole text fail. */
  lemma ParseAllFails(tokens: seq<string>, parse: string -> Option<Entry>, i: nat)
    requires i < |tokens| && parse(tokens[i]).None?
    ensures ParseAll(tokens, parse).None?
  {
  }

  /** Parsing one more term extends the parsed prefix, and adding its entry
      extends the accumulated store. */
  lemma ParseAllStep(tokens: seq<string>, parse: string -> Option<Entry>, i: nat, es: seq<Entry>)
    requires i < |tokens| && ParseAll(tokens[..i], parse) == Some(es) && parse(tokens[i]).Some?
    ensures ParseAll(tokens[..i + 1], parse) == Some(es + [parse(tokens[i]).value])
    ensures forall m :: AddAll(m, es + [parse(tokens[i]).value])
                        == Accumulate(AddAll(m, es), parse(tokens[i]).value.0, parse(tokens[i]).value.1)
  {
    assert tokens[..i + 1][..i] == tokens[..i];
    assert (es + [parse(tokens[i]).value])[..|es|] == es;
  }

  /** The terms of a text: spaces dropped, signs marked, split at '+'. */
  function Tokens(text: string): seq<string>
  {
    JavaSplit(MarkSigns(RemoveAll(text, ' ')), "+")
  }

  /** ParseTerm for a fixed variable name and number parser. */
  function TermParser(v: char, parseReal: string -> Option<real>): string -> Option<Entry>
  {
    t => ParseTerm(v, t, parseReal)
  }

  /** The terms the parsing constructor adds, in order, or None where it throws. */
  function ParseTerms(v: char, text: string, parseReal: string -> Option<real>): Option<seq<Entry>>
  {
    ParseAll(Tokens(text), TermParser(v, parseReal))
  }

  /** The sum of the coefficients parsed at degree k. */
  function SumAt(es: seq<Entry>, k: nat): real
  {
    if es == [] then 0.0
    else SumAt(es[..|es| - 1], k) + (if es[|es| - 1].0 == k then es[|es| - 1].1 else 0.0)
  }

  /** Each entry added in order with the accumulating writer: the coefficient
      at k grows by the sum of the values parsed at degree k. */
  function AddAll(m: Terms, es: seq<Entry>): (r: Terms)
    ensures Sparse(m) ==> Sparse(r)
    ensures 0 in m ==> 0 in r
    ensures forall k: nat :: Coeff(r, k) == Coeff(m, k) + SumAt(es, k)
  {
    if es == [] then m
    else Accumulate(AddAll(m, es[..|es| - 1]), es[|es| - 1].0, es[|es| - 1].1)
  }

  /** A text starting with '-' (once its spaces are dropped) splits into an
      empty first term followed by at least one more. */
  lemma LeadingMinusTokens(text: string)
    requires |RemoveAll(text, ' ')| > 0 && RemoveAll(text, ' ')[0] == '-'
    ensures |Tokens(text)| >= 2 && Tokens(text)[0] == ""
    ensures Tokens(text)[1] != "" && Tokens(text)[1][0] == '-'
  {
    var s := MarkSigns(RemoveAll(text, ' '));
    assert s[..1] == "+" && s[1] == '-';
    var rest := SplitOn(s[1..], "+");
    assert SplitOn(s, "+") == [""] + rest;
    assert s[1..][..1] != "+" by { assert s[1..][0] == '-'; }
    assert rest[0] != "" by { assert rest[0] == [s[1]] + SplitOn(s[2..], "+")[0]; }
    var ps := SplitOn(s, "+");
    assert ps[1] != "" && ps[1][0] == '-';
    var r := DropTrailingEmpty(ps);
    assert |r| >= 2 && r[1] == ps[1];
  }

  /** A text starting with '-' (after its spaces are dropped) begins with an
      empty term, which adds 1 at degree 0. */
  lemma LeadingMinusAddsOne(v: char, text: string, parseReal: string -> Option<real>)
    requires |RemoveAll(text, ' ')| > 0 && RemoveAll(text, ' ')[0] == '-'
    ensures ParseTerms(v, text, parseReal).Some?
            ==> |ParseTerms(v, text, parseReal).value| >= 2 && ParseTerms(v, text, parseReal).value[0] == (0, 1.0)
  {
    LeadingMinusTokens(text);
    ParseFixedDegrees();
  }

  /** The empty text is the constant 1. */
  lemma EmptyTextIsOne(v: char, parseReal: string -> Option<real>)
    ensures ParseTerms(v, "", parseReal) == Some([(0, 1.0)])
  {
    assert RemoveAll("", ' ') == "" && MarkSigns("") == "";
    assert SplitOn("", "+") == [""];
    assert Tokens("") == [""];
    ParseFixedDegrees();
    assert TermPieces(v, "") == ["", "0"];
    assert ParseTerm(v, "", parseReal) == Some((0, 1.0));
    var r := ParseAll([""], TermParser(v, parseReal));
    assert r.Some? && |r.value| == 1 && r.value[0] == (0, 1.0);
    assert r.value == [(0, 1.0)];
  }

  lemma NegatedVariableMarked()
    ensures MarkSigns(RemoveAll("-x", ' ')) == "+-x"
  {
    assert RemoveAll("x", ' ') == "x" by { assert "x"[1..] == ""; }
    assert RemoveAll("-x", ' ') == "-x" by { assert "-x"[1..] == "x"; }
    assert MarkSigns("x") == "x" by { assert "x"[1..] == ""; }
    assert MarkSigns("-x") == "+-x" by { assert "-x"[1..] == "x"; }
  }

  lemma NegatedVariableSplit()
    ensures SplitOn("+-x", "+") == ["", "-x"]
  {
    assert SplitOn("", "+") == [""];
    assert SplitOn("x", "+") == ["x"] by {
      assert "x"[..1] == "x" && "x"[1..] == "";
      assert ['x'] + "" == "x";
    }
    assert SplitOn("-x", "+") == ["-x"] by {
      assert "-x"[..1] == "-" && "-x"[1..] == "x";
      assert ['-'] + "x" == "-x";
    }
    assert "+-x"[..1] == "+" && "+-x"[1..] == "-x";
  }

  /** "-x" splits into an empty first term and "-x". */
  lemma NegatedVariableTokens()
    ensures Tokens("-x") == ["", "-x"]
  {
    NegatedVariableMarked();
    NegatedVariableSplit();
  }

  /** Two tokens that both parse give their two entries in order. */
  lemma ParseAllPair(t0: string, t1: string, parse: string -> Option<Entry>)
    requires parse(t0).Some? && parse(t1).Some?
    ensures ParseAll([t0, t1], parse) == Some([parse(t0).value, parse(t1).value])
  {
    var r := ParseAll([t0, t1], parse);
    assert [t0, t1][0] == t0 && [t0, t1][1] == t1;
    assert r.Some? && |r.value| == 2;
    assert parse(t0) == Some(r.value[0]) && parse(t1) == Some(r.value[1]);
    assert r.value == [r.value[0], r.value[1]];
  }

  /** "-x" reads as the two terms 1 and -x: the polynomial 1 - x. */
  lemma NegatedVariableText(parseReal: string -> Option<real>)
    ensures ParseTerms('x', "-x", parseReal) == Some([(0, 1.0), (1, -1.0)])
  {
    NegatedVariableTokens();
    UnitTerms('x', parseReal);
    var parse := TermParser('x', parseReal);
    assert parse("") == Some((0, 1.0)) && parse("-x") == Some((1, -1.0));
    ParseAllPair("", "-x", parse);
  }

  /** The terms with the empty pieces left out, in order. */
  function NonEmpty(ts: seq<string>): (r: seq<string>)
    ensures |r| <= |ts|
    ensures forall i :: 0 <= i < |r| ==> r[i] != ""
  {
    if ts == [] then []
    else
      NonEmpty(ts[..|ts| - 1]) + (if ts[|ts| - 1] == "" then [] else [ts[|ts| - 1]])
  }

  /** Filtering one more piece: an empty piece adds nothing. */
  lemma NonEmptyStep(ts: seq<string>, i: nat)
    requires i < |ts|
    ensures NonEmpty(ts[..i + 1]) == NonEmpty(ts[..i]) + (if ts[i] == "" then [] else [ts[i]])
  {
    assert ts[..i + 1][..i] == ts[..i];
  }

  /** Filtering a prefix gives a prefix of the filtered pieces. */
  lemma {:induction false} NonEmptyPrefix(ts: seq<string>, k: nat)
    requires k <= |ts|
    ensures NonEmpty(ts[..k]) <= NonEmpty(ts)
    decreases |ts|
  {
    if k == |ts| {
      assert ts[..k] == ts;
    } else {
      var init := ts[..|ts| - 1];
      NonEmptyPrefix(init, k);
      assert init[..k] == ts[..k];
    }
  }

  /** Pieces that are all non-empty are kept as they are. */
  lemma {:induction false} NonEmptyKeeps(ts: seq<string>)
    requires forall i :: 0 <= i < |ts| ==> ts[i] != ""
    ensures NonEmpty(ts) == ts
  {
    if ts != [] {
      NonEmptyKeeps(ts[..|ts| - 1]);
      assert ts == ts[..|ts| - 1] + [ts[|ts| - 1]];
    }
  }

  /** The terms the parsing constructor evidently means to add: those of
      Tokens with the empty pieces skipped, so that a leading '-' negates the
      first term instead of putting a term 1 before it. */
  function SignedTerms(v: char, text: string, parseReal: string -> Option<real>): Option<seq<Entry>>
  {
    ParseAll(NonEmpty(Tokens(text)), TermParser(v, parseReal))
  }

  /** Skipping empty pieces, the first term read from a text with a leading
      '-' is the one the sign belongs to. */
  lemma LeadingMinusNegates(text: string)
    requires |RemoveAll(text, ' ')| > 0 && RemoveAll(text, ' ')[0] == '-'
    ensures |NonEmpty(Tokens(text))| >= 1 && NonEmpty(Tokens(text))[0] == Tokens(text)[1]
    ensures NonEmpty(Tokens(text))[0][0] == '-'
  {
    LeadingMinusTokens(text);
    var ts := Tokens(text);
    NonEmptyStep(ts, 0);
    NonEmptyStep(ts, 1);
    assert ts[..0] == [];
    assert NonEmpty(ts[..2]) == [ts[1]];
    NonEmptyPrefix(ts, 2);
  }

  /** An empty piece followed by a non-empty one filters to the latter. */
  lemma NonEmptyPair(ts: seq<string>)
    requires |ts| == 2 && ts[0] == "" && ts[1] != ""
    ensures NonEmpty(ts) == [ts[1]]
  {
    NonEmptyStep(ts, 0);
    NonEmptyStep(ts, 1);
    assert ts[..0] == [] && ts[..2] == ts;
  }

  /** Skipping the empty piece of "-x" leaves the one term "-x". */
  lemma SignedVariableTokens()
    ensures NonEmpty(Tokens("-x")) == ["-x"]
  {
    NegatedVariableTokens();
    NonEmptyPair(Tokens("-x"));
  }

  /** One token that parses gives its one entry. */
  lemma ParseAllSingle(t: string, parse: string -> Option<Entry>)
    requires parse(t).Some?
    ensures ParseAll([t], parse) == Some([parse(t).value])
  {
    var r := ParseAll([t], parse);
    assert [t][0] == t;
    assert r.Some? && |r.value| == 1 && parse(t) == Some(r.value[0]);
    assert r.value == [r.value[0]];
  }

  /** With the empty pieces skipped, "-x" reads as the single term -x. */
  lemma SignedVariableText(parseReal: string -> Option<real>)
    ensures SignedTerms('x', "-x", parseReal) == Some([(1, -1.0)])
  {
    SignedVariableTokens();
    UnitTerms('x', parseReal);
    ParseAllSingle("-x", TermParser('x', parseReal));
  }

  /** The empty text reads as no term: the constant 0 of the constructor. */
  lemma SignedEmptyText(v: char, parseReal: string -> Option<real>)
    ensures SignedTerms(v, "", parseReal) == Some([])
  {
    assert RemoveAll("", ' ') == "" && MarkSigns("") == "";
    assert SplitOn("", "+") == [""];
    assert Tokens("") == [""];
    NonEmptyStep([""], 0);
    assert [""][..1] == [""] && [""][..0] == [];
  }

  /** Where no piece is empty, skipping them changes nothing: the corrected
      reading is the reading as written. */
  lemma SignedTermsAgree(v: char, text: string, parseReal: string -> Option<real>)
    requires forall i :: 0 <= i < |Tokens(text)| ==> Tokens(text)[i] != ""
    ensures SignedTerms(v, text, parseReal) == ParseTerms(v, text, parseReal)
  {
    NonEmptyKeeps(Tokens(text));
  }
}
