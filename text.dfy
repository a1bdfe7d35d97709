/**
 * String helpers that the plugin relies on implicitly: the `\s` character
 * class of JavaScript regular expressions and the ASCII whitespace of HTML,
 * splitting a string into its maximal runs of non-whitespace (class tokens
 * when split at ASCII whitespace), the `replace(/\s+/g, '.')` rewrite, and
 * the decimal rendering of the `each` index that JavaScript string
 * concatenation does.
 */
module Text {

  /** The code points matched by `\s` in an ECMAScript regular expression
      (WhiteSpace and LineTerminator). */
  predicate IsRegexSpace(c: char) {
    c == ' ' || c == '\t' || c == '\n' || c == '\r' ||
    c == '\U{000B}' || c == '\U{000C}' || c == '\U{00A0}' || c == '\U{FEFF}' ||
    c == '\U{1680}' || ('\U{2000}' <= c <= '\U{200A}') ||
    c == '\U{2028}' || c == '\U{2029}' || c == '\U{202F}' || c == '\U{205F}' ||
    c == '\U{3000}'
  }

  /** ASCII whitespace: the separators of a class attribute in HTML, and the
      ones jQuery's class methods split on. */
  predicate IsHtmlSpace(c: char) {
    c == ' ' || c == '\t' || c == '\n' || c == '\U{000C}' || c == '\r'
  }

  /** Which whitespace a string is split on: `\s` for the selector rewrite,
      ASCII whitespace for class attributes. */
  datatype Blanks = Regex | Html

  predicate IsSpace(b: Blanks, c: char) {
    match b
    case Regex => IsRegexSpace(c)
    case Html => IsHtmlSpace(c)
  }

  predicate NoSpace(bl: Blanks, s: string) {
    forall i :: 0 <= i < |s| ==> !IsSpace(bl, s[i])
  }

  /** `s` without its leading whitespace. */
  function DropSpaces(bl: Blanks, s: string): (r: string)
    ensures |r| <= |s| && r == s[|s| - |r|..]
    ensures forall i :: 0 <= i < |s| - |r| ==> IsSpace(bl, s[i])
    ensures r == [] || !IsSpace(bl, r[0])
  {
    if s != [] && IsSpace(bl, s[0]) then DropSpaces(bl, s[1..]) else s
  }

  /** The longest prefix of `s` that holds no whitespace. */
  function Word(bl: Blanks, s: string): (w: string)
    ensures |w| <= |s| && w == s[..|w|] && NoSpace(bl, w)
    ensures |w| < |s| ==> IsSpace(bl, s[|w|])
    ensures s != [] && !IsSpace(bl, s[0]) ==> w != []
  {
    if s == [] || IsSpace(bl, s[0]) then [] else [s[0]] + Word(bl, s[1..])
  }

  /** The maximal runs of characters outside `bl`, in order; split at `Html`,
      the class tokens of a class attribute. */
  function Tokens(bl: Blanks, s: string): (ts: seq<string>)
    ensures forall t :: t in ts ==> t != [] && NoSpace(bl, t)
    decreases |s|
  {
    if s == [] then []
    else if IsSpace(bl, s[0]) then Tokens(bl, s[1..])
    else
      var w := Word(bl, s);
      [w] + Tokens(bl, s[|w|..])
  }

  /** Every ASCII whitespace character is also matched by `\s`. */
  lemma HtmlSpaceIsRegexSpace(c: char)
    ensures IsSpace(Html, c) ==> IsSpace(Regex, c)
  {
  }

  /** A string without `\s` has no ASCII whitespace either. */
  lemma NoRegexSpaceNoHtmlSpace(s: string)
    requires NoSpace(Regex, s)
    ensures NoSpace(Html, s)
  {
    forall i | 0 <= i < |s|
      ensures !IsSpace(Html, s[i])
    {
      HtmlSpaceIsRegexSpace(s[i]);
    }
  }

  /** The `\s` characters of `s`, if any, are all ASCII whitespace. */
  predicate AsciiBlanksOnly(s: string) {
    forall i :: 0 <= i < |s| ==> (IsSpace(Regex, s[i]) <==> IsSpace(Html, s[i]))
  }

  lemma AsciiBlanksOnlySuffix(s: string, k: nat)
    requires k <= |s| && AsciiBlanksOnly(s)
    ensures AsciiBlanksOnly(s[k..])
  {
    assert forall i :: 0 <= i < |s| - k ==> s[k..][i] == s[k + i];
  }

  lemma {:induction false} WordAgree(s: string)
    requires AsciiBlanksOnly(s)
    ensures Word(Regex, s) == Word(Html, s)
    decreases |s|
  {
    if s != [] && !IsSpace(Regex, s[0]) {
      AsciiBlanksOnlySuffix(s, 1);
      WordAgree(s[1..]);
    }
  }

  /** When the only `\s` characters of `s` are ASCII whitespace, splitting at
      either kind gives the same tokens. */
  lemma {:induction false} TokensAgree(s: string)
    requires AsciiBlanksOnly(s)
    ensures Tokens(Regex, s) == Tokens(Html, s)
    decreases |s|
  {
    if s != [] {
      if IsSpace(Regex, s[0]) {
        AsciiBlanksOnlySuffix(s, 1);
        TokensAgree(s[1..]);
      } else {
        WordAgree(s);
        var k := |Word(Regex, s)|;
        AsciiBlanksOnlySuffix(s, k);
        TokensAgree(s[k..]);
      }
    }
  }

  /** `s.replace(/\s+/g, '.')`: every maximal whitespace run becomes one dot. */
  function SpacesToDots(s: string): (r: string)
    ensures NoSpace(Regex, r)
    ensures NoSpace(Regex, s) ==> r == s
    ensures |r| <= |s|
    decreases |s|
  {
    if s == [] then []
    else if IsSpace(Regex, s[0]) then "." + SpacesToDots(DropSpaces(Regex, s))
    else [s[0]] + SpacesToDots(s[1..])
  }

  /** A string without whitespace is a single class token. */
  lemma TokensOfWord(bl: Blanks, w: string)
    requires w != [] && NoSpace(bl, w)
    ensures Tokens(bl, w) == [w]
  {
    assert Word(bl, w) == w;
    assert w[|w|..] == [];
  }

  /** A word ends at the first whitespace character. */
  lemma {:induction false} WordStopsAtSpace(bl: Blanks, a: string, c: char, b: string)
    requires IsSpace(bl, c)
    ensures Word(bl, a + [c] + b) == Word(bl, a)
  {
    if a != [] && !IsSpace(bl, a[0]) {
      assert (a + [c] + b)[1..] == a[1..] + [c] + b;
      WordStopsAtSpace(bl, a[1..], c, b);
    }
  }

  lemma Assoc<T>(a: seq<T>, b: seq<T>, c: seq<T>)
    ensures a + (b + c) == (a + b) + c
  {
  }

  lemma DropInSplit(a: string, c: char, b: string, k: nat)
    requires k <= |a|
    ensures (a + [c] + b)[k..] == a[k..] + [c] + b
  {
  }

  /** Leading whitespace contributes no token. */
  lemma TokensSkipSpace(bl: Blanks, s: string)
    requires s != [] && IsSpace(bl, s[0])
    ensures Tokens(bl, s) == Tokens(bl, s[1..])
  {
  }

  /** A class attribute that starts with a class starts its token list with it. */
  lemma TokensAtWord(bl: Blanks, s: string)
    requires s != [] && !IsSpace(bl, s[0])
    ensures Tokens(bl, s) == [Word(bl, s)] + Tokens(bl, s[|Word(bl, s)|..])
  {
  }

  /** Joining two class attributes with a whitespace character concatenates
      their token lists. */
  lemma {:induction false} TokensSplit(bl: Blanks, a: string, c: char, b: string)
    requires IsSpace(bl, c)
    ensures Tokens(bl, a + [c] + b) == Tokens(bl, a) + Tokens(bl, b)
    decreases |a|
  {
    if a == [] {
      TokensSplitEmpty(bl, c, b);
    } else if IsSpace(bl, a[0]) {
      TokensSplit(bl, a[1..], c, b);
      TokensSplitSpace(bl, a, c, b);
    } else {
      var w := Word(bl, a);
      TokensSplit(bl, a[|w|..], c, b);
      TokensSplitWord(bl, a, c, b);
    }
  }

  lemma TokensSplitEmpty(bl: Blanks, c: char, b: string)
    requires IsSpace(bl, c)
    ensures Tokens(bl, [] + [c] + b) == Tokens(bl, []) + Tokens(bl, b)
  {
    var s := [] + [c] + b;
    DropInSplit([], c, b, 0);
    TokensSkipSpace(bl, s);
  }

  lemma TokensSplitSpace(bl: Blanks, a: string, c: char, b: string)
    requires IsSpace(bl, c) && a != [] && IsSpace(bl, a[0])
    requires Tokens(bl, a[1..] + [c] + b) == Tokens(bl, a[1..]) + Tokens(bl, b)
    ensures Tokens(bl, a + [c] + b) == Tokens(bl, a) + Tokens(bl, b)
  {
    var s := a + [c] + b;
    DropInSplit(a, c, b, 1);
    TokensSkipSpace(bl, s);
    TokensSkipSpace(bl, a);
  }

  lemma TokensSplitWord(bl: Blanks, a: string, c: char, b: string)
    requires IsSpace(bl, c) && a != [] && !IsSpace(bl, a[0])
    requires Tokens(bl, a[|Word(bl, a)|..] + [c] + b) == Tokens(bl, a[|Word(bl, a)|..]) + Tokens(bl, b)
    ensures Tokens(bl, a + [c] + b) == Tokens(bl, a) + Tokens(bl, b)
  {
    var s := a + [c] + b;
    var w := Word(bl, a);
    var rest := a[|w|..];
    WordStopsAtSpace(bl, a, c, b);
    DropInSplit(a, c, b, |w|);
    TokensAtWord(bl, s);
    TokensAtWord(bl, a);
    calc {
      Tokens(bl, s);
      [w] + Tokens(bl, rest + [c] + b);
      [w] + (Tokens(bl, rest) + Tokens(bl, b));
      { Assoc([w], Tokens(bl, rest), Tokens(bl, b)); }
      ([w] + Tokens(bl, rest)) + Tokens(bl, b);
      Tokens(bl, a) + Tokens(bl, b);
    }
  }

  /** The dot rewrite keeps a leading word and rewrites what follows it. */
  lemma {:induction false} SpacesToDotsAfterWord(s: string)
    ensures SpacesToDots(s) == Word(Regex, s) + SpacesToDots(s[|Word(Regex, s)|..])
  {
    if s != [] && !IsSpace(Regex, s[0]) {
      var t := s[1..];
      SpacesToDotsAfterWord(t);
      var wt := Word(Regex, t);
      assert Word(Regex, s) == [s[0]] + wt;
      assert t[|wt|..] == s[|Word(Regex, s)|..];
      calc {
        SpacesToDots(s);
        [s[0]] + SpacesToDots(t);
        [s[0]] + (wt + SpacesToDots(t[|wt|..]));
        { Assoc([s[0]], wt, SpacesToDots(t[|wt|..])); }
        ([s[0]] + wt) + SpacesToDots(s[|Word(Regex, s)|..]);
      }
    }
  }

  /** The class tokens joined by single dots. */
  function DotJoin(ts: seq<string>): string {
    if ts == [] then "" else if |ts| == 1 then ts[0] else ts[0] + "." + DotJoin(ts[1..])
  }

  /** The dot a leading whitespace run turns into. */
  function LeadDot(s: string): string {
    if s != [] && IsSpace(Regex, s[0]) then "." else ""
  }

  /** The dot a trailing whitespace run turns into, when it is not also the
      leading run. */
  function TrailDot(s: string): string {
    if Tokens(Regex, s) != [] && s != [] && IsSpace(Regex, s[|s| - 1]) then "." else ""
  }

  /** A string without class tokens is whitespace only. */
  lemma {:induction false} NoTokensAllSpace(bl: Blanks, s: string)
    requires Tokens(bl, s) == []
    ensures forall i :: 0 <= i < |s| ==> IsSpace(bl, s[i])
    ensures DropSpaces(bl, s) == []
    decreases |s|
  {
    if s != [] {
      NoTokensAllSpace(bl, s[1..]);
      assert forall i :: 1 <= i < |s| ==> s[i] == s[1..][i - 1];
    }
  }

  /** Leading whitespace contributes no token, however long the run. */
  lemma {:induction false} TokensDropSpaces(bl: Blanks, s: string)
    ensures Tokens(bl, s) == Tokens(bl, DropSpaces(bl, s))
    decreases |s|
  {
    if s != [] && IsSpace(bl, s[0]) {
      TokensDropSpaces(bl, s[1..]);
    }
  }

  lemma LastOfSuffix(s: string, k: nat)
    requires k < |s|
    ensures s[k..][|s[k..]| - 1] == s[|s| - 1]
  {
  }

  lemma TrailDotOf(s: string, t: string)
    requires s != [] && t != [] && s[|s| - 1] == t[|t| - 1]
    requires Tokens(Regex, s) == [] <==> Tokens(Regex, t) == []
    ensures TrailDot(s) == TrailDot(t)
  {
  }

  lemma DotJoinCons(w: string, ts: seq<string>)
    requires ts != []
    ensures DotJoin([w] + ts) == w + "." + DotJoin(ts)
  {
    assert ([w] + ts)[1..] == ts;
  }

  /** Every maximal whitespace run becomes exactly one dot: the tokens are
      joined by single dots, a leading run gives a leading dot and a trailing
      run a trailing one; a string of whitespace only becomes one dot. */
  lemma {:induction false} SpacesToDotsRuns(s: string)
    ensures SpacesToDots(s) == LeadDot(s) + DotJoin(Tokens(Regex, s)) + TrailDot(s)
    decreases |s|
  {
    if s == [] {
      assert Tokens(Regex, s) == [];
    } else if IsSpace(Regex, s[0]) {
      var t := DropSpaces(Regex, s);
      if t != [] {
        SpacesToDotsRuns(t);
      }
      RunsAfterSpace(s);
    } else {
      var r := s[|Word(Regex, s)|..];
      if r != [] {
        SpacesToDotsRuns(r);
      }
      RunsAfterWord(s);
    }
  }

  lemma RunsAfterSpace(s: string)
    requires s != [] && IsSpace(Regex, s[0])
    requires DropSpaces(Regex, s) != [] ==>
               SpacesToDots(DropSpaces(Regex, s)) ==
               LeadDot(DropSpaces(Regex, s)) + DotJoin(Tokens(Regex, DropSpaces(Regex, s))) + TrailDot(DropSpaces(Regex, s))
    ensures SpacesToDots(s) == LeadDot(s) + DotJoin(Tokens(Regex, s)) + TrailDot(s)
  {
    var t := DropSpaces(Regex, s);
    SpaceRunFacts(s);
    if t == [] {
      OneDot(SpacesToDots(s), SpacesToDots(t), DotJoin(Tokens(Regex, s)), TrailDot(s));
    } else {
      DotThen(SpacesToDots(s), SpacesToDots(t), DotJoin(Tokens(Regex, t)), TrailDot(t));
    }
  }

  lemma OneDot(a: string, x: string, j: string, tr: string)
    requires a == "." + x && x == "" && j == "" && tr == ""
    ensures a == "." + j + tr
  {
    assert "." + "" == ".";
  }

  lemma DotThen(a: string, x: string, j: string, tr: string)
    requires a == "." + x && x == "" + j + tr
    ensures a == "." + j + tr
  {
    assert "" + j == j;
    assert a == "." + (j + tr);
  }

  lemma SpaceRunFacts(s: string)
    requires s != [] && IsSpace(Regex, s[0])
    ensures SpacesToDots(s) == "." + SpacesToDots(DropSpaces(Regex, s))
    ensures LeadDot(s) == "."
    ensures Tokens(Regex, s) == Tokens(Regex, DropSpaces(Regex, s))
    ensures DropSpaces(Regex, s) == [] ==> Tokens(Regex, s) == [] && SpacesToDots(DropSpaces(Regex, s)) == "" && TrailDot(s) == ""
    ensures DropSpaces(Regex, s) != [] ==> LeadDot(DropSpaces(Regex, s)) == "" && TrailDot(DropSpaces(Regex, s)) == TrailDot(s)
  {
    var t := DropSpaces(Regex, s);
    assert DropSpaces(Regex, t) == t;
    TokensDropSpaces(Regex, s);
    if t != [] {
      LastOfSuffix(s, |s| - |t|);
      TrailDotOf(t, s);
    }
  }

  lemma RunsAfterWord(s: string)
    requires s != [] && !IsSpace(Regex, s[0])
    requires s[|Word(Regex, s)|..] != [] ==>
               SpacesToDots(s[|Word(Regex, s)|..]) ==
               LeadDot(s[|Word(Regex, s)|..]) + DotJoin(Tokens(Regex, s[|Word(Regex, s)|..])) + TrailDot(s[|Word(Regex, s)|..])
    ensures SpacesToDots(s) == LeadDot(s) + DotJoin(Tokens(Regex, s)) + TrailDot(s)
  {
    var r := s[|Word(Regex, s)|..];
    if r == [] {
      RunsOneWord(s);
    } else if Tokens(Regex, r) == [] {
      RunsWordThenSpace(s);
    } else {
      RunsWordThenMore(s);
    }
  }

  lemma RunsOneWord(s: string)
    requires s != [] && !IsSpace(Regex, s[0]) && s[|Word(Regex, s)|..] == []
    ensures SpacesToDots(s) == LeadDot(s) + DotJoin(Tokens(Regex, s)) + TrailDot(s)
  {
    SpacesToDotsAfterWord(s);
    TokensAtWord(Regex, s);
    assert LeadDot(s) == "";
    WordIsAll(s);
    WordThen(SpacesToDots(s), Word(Regex, s), "", Tokens(Regex, s), "");
  }

  lemma RunsWordThenSpace(s: string)
    requires s != [] && !IsSpace(Regex, s[0]) && s[|Word(Regex, s)|..] != [] && Tokens(Regex, s[|Word(Regex, s)|..]) == []
    ensures SpacesToDots(s) == LeadDot(s) + DotJoin(Tokens(Regex, s)) + TrailDot(s)
  {
    SpacesToDotsAfterWord(s);
    TokensAtWord(Regex, s);
    assert LeadDot(s) == "";
    AllSpaceRest(s);
    WordThen(SpacesToDots(s), Word(Regex, s), ".", Tokens(Regex, s), ".");
  }

  lemma RunsWordThenMore(s: string)
    requires s != [] && !IsSpace(Regex, s[0]) && Tokens(Regex, s[|Word(Regex, s)|..]) != []
    requires SpacesToDots(s[|Word(Regex, s)|..]) ==
             LeadDot(s[|Word(Regex, s)|..]) + DotJoin(Tokens(Regex, s[|Word(Regex, s)|..])) + TrailDot(s[|Word(Regex, s)|..])
    ensures SpacesToDots(s) == LeadDot(s) + DotJoin(Tokens(Regex, s)) + TrailDot(s)
  {
    var w := Word(Regex, s);
    var r := s[|w|..];
    SpacesToDotsAfterWord(s);
    TokensAtWord(Regex, s);
    WordThenMoreFacts(s);
    DotJoinCons(w, Tokens(Regex, r));
    WordThenDot(SpacesToDots(s), w, SpacesToDots(r), DotJoin(Tokens(Regex, r)), TrailDot(r));
  }

  lemma WordThenMoreFacts(s: string)
    requires s != [] && !IsSpace(Regex, s[0]) && Tokens(Regex, s[|Word(Regex, s)|..]) != []
    ensures LeadDot(s) == "" && LeadDot(s[|Word(Regex, s)|..]) == "."
    ensures TrailDot(s[|Word(Regex, s)|..]) == TrailDot(s)
  {
    var w := Word(Regex, s);
    TokensAtWord(Regex, s);
    LastOfSuffix(s, |w|);
    TrailDotOf(s[|w|..], s);
  }

  /** A string that is one word has no trailing dot. */
  lemma WordIsAll(s: string)
    requires s != [] && !IsSpace(Regex, s[0]) && s[|Word(Regex, s)|..] == []
    ensures Tokens(Regex, s[|Word(Regex, s)|..]) == [] && SpacesToDots(s[|Word(Regex, s)|..]) == "" && TrailDot(s) == ""
  {
    assert Word(Regex, s) == s;
  }

  /** A word followed by whitespace only ends in a dot. */
  lemma AllSpaceRest(s: string)
    requires s != [] && !IsSpace(Regex, s[0]) && s[|Word(Regex, s)|..] != [] && Tokens(Regex, s[|Word(Regex, s)|..]) == []
    ensures SpacesToDots(s[|Word(Regex, s)|..]) == "." && TrailDot(s) == "."
  {
    var r := s[|Word(Regex, s)|..];
    NoTokensAllSpace(Regex, r);
    assert DropSpaces(Regex, r) == [];
    LastOfSuffix(s, |Word(Regex, s)|);
    TokensAtWord(Regex, s);
  }

  /** A word followed by the rewrite of the rest, with no tokens after it. */
  lemma WordThen(a: string, w: string, x: string, ts: seq<string>, tr: string)
    requires a == w + x && x == tr && ts == [w] + []
    ensures a == "" + DotJoin(ts) + tr
  {
    assert ts == [w];
    assert "" + w == w;
  }

  /** A word followed by the rewrite of a rest that holds further tokens. */
  lemma WordThenDot(a: string, w: string, x: string, j: string, tr: string)
    requires a == w + x && x == "." + j + tr
    ensures a == "" + (w + "." + j) + tr
  {
    assert "" + (w + "." + j) == w + "." + j;
  }

  // ---------------------------------------------------------------------
  // Decimal rendering of a loop index, as `'...' + i` produces it.
  // ---------------------------------------------------------------------

  predicate IsDigit(c: char) {
    '0' as int <= c as int <= '9' as int
  }

  function DigitChar(d: nat): (c: char)
    requires d < 10
    ensures IsDigit(c) && c as int - '0' as int == d
  {
    (d + '0' as int) as char
  }

  /** The shortest decimal numeral of `n`. */
  function DecimalString(n: nat): (s: string)
    ensures s != [] && forall i :: 0 <= i < |s| ==> IsDigit(s[i])
    ensures |s| > 1 ==> s[0] != '0'
  {
    if n < 10 then [DigitChar(n)] else DecimalString(n / 10) + [DigitChar(n % 10)]
  }

  /** The number a string of decimal digits denotes. */
  function DecimalValue(s: string): nat
    requires forall i :: 0 <= i < |s| ==> IsDigit(s[i])
  {
    if s == [] then 0
    else
      assert IsDigit(s[|s| - 1]);
      DecimalValue(s[..|s| - 1]) * 10 + (s[|s| - 1] as int - '0' as int)
  }

  /** Reading back the numeral of `n` gives `n`. */
  lemma {:induction false} DecimalRoundTrip(n: nat)
    ensures DecimalValue(DecimalString(n)) == n
  {
    if n >= 10 {
      DecimalRoundTrip(n / 10);
      var s := DecimalString(n);
      assert s[..|s| - 1] == DecimalString(n / 10);
    }
  }

  /** Distinct indices have distinct numerals. */
  lemma DecimalInjective(m: nat, n: nat)
    requires DecimalString(m) == DecimalString(n)
    ensures m == n
  {
    DecimalRoundTrip(m);
    DecimalRoundTrip(n);
  }
}
