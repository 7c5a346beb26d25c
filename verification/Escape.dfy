/**
 escape of pyratemp: chains of str.replace calls, against one simultaneous substitution of
 every character.
 */
module Escape {
  import opened Basics

  // ----- str.replace

  /** Occurrences of old from left to right, not overlapping. */
  function Replace(s: string, old_: string, new_: string): string
    requires |old_| >= 1
  {
    if s == [] then []
    else if old_ <= s then new_ + Replace(s[|old_|..], old_, new_)
    else [s[0]] + Replace(s[1..], old_, new_)
  }

  /** What is replaced starts with a character that is not there. */
  lemma {:induction false} ReplaceNothing(s: string, old_: string, new_: string)
    requires |old_| >= 1 && old_[0] !in s
    ensures Replace(s, old_, new_) == s
  {
    if s != [] {
      ReplaceNothing(s[1..], old_, new_);
      assert s == [s[0]] + s[1..];
    }
  }

  /** No occurrence straddles the end of a: it does not end with the start of a two-character old. */
  predicate Closed(a: string, old_: string)
    requires |old_| >= 1
  {
    |old_| == 1 || (|old_| == 2 && (a == [] || a[|a| - 1] != old_[0]))
  }

  lemma HitStep(s: string, rest: string, old_: string, new_: string)
    requires |old_| >= 1 && old_ <= s && rest == s[|old_|..]
    ensures Replace(s, old_, new_) == new_ + Replace(rest, old_, new_)
  {
  }

  lemma MissStep(s: string, rest: string, old_: string, new_: string)
    requires |old_| >= 1 && s != [] && !(old_ <= s) && rest == s[1..]
    ensures Replace(s, old_, new_) == [s[0]] + Replace(rest, old_, new_)
  {
  }

  lemma {:induction false} ReplaceConcat(a: string, b: string, old_: string, new_: string)
    requires |old_| >= 1 && Closed(a, old_)
    ensures Replace(a + b, old_, new_) == Replace(a, old_, new_) + Replace(b, old_, new_)
    decreases |a|
  {
    if a == [] {
      assert a + b == b;
    } else {
      PrefixOfConcat(a, b, old_);
      var k := if old_ <= a then |old_| else 1;
      var rest := a[k..];
      assert (a + b)[k..] == rest + b;
      ReplaceConcat(rest, b, old_, new_);
      if old_ <= a {
        HitStep(a, rest, old_, new_);
        HitStep(a + b, rest + b, old_, new_);
        Associative(new_, Replace(rest, old_, new_), Replace(b, old_, new_));
      } else {
        MissStep(a, rest, old_, new_);
        MissStep(a + b, rest + b, old_, new_);
        Associative([a[0]], Replace(rest, old_, new_), Replace(b, old_, new_));
      }
    }
  }

  lemma PrefixOfConcat(a: string, b: string, old_: string)
    requires |old_| >= 1 && a != [] && Closed(a, old_)
    ensures old_ <= a + b <==> old_ <= a
    ensures old_ <= a ==> Closed(a[|old_|..], old_)
    ensures Closed(a[1..], old_)
  {
    if |a| >= |old_| {
      assert (a + b)[..|old_|] == a[..|old_|];
    }
  }

  // ----- simultaneous substitution

  /** Every character replaced by its code. */
  function Each(s: string, code: char -> string): string {
    if s == [] then [] else code(s[0]) + Each(s[1..], code)
  }

  /** A replace after a substitution is a substitution. */
  lemma {:induction false} ReplaceEach(s: string, code: char -> string, old_: string, new_: string,
                                       then_: char -> string)
    requires |old_| >= 1 && forall x :: Closed(code(x), old_) && then_(x) == Replace(code(x), old_, new_)
    ensures Replace(Each(s, code), old_, new_) == Each(s, then_)
  {
    if s != [] {
      ReplaceEach(s[1..], code, old_, new_, then_);
      ReplaceConcat(code(s[0]), Each(s[1..], code), old_, new_);
    }
  }

  lemma {:induction false} EachSame(s: string, a: char -> string, b: char -> string)
    requires forall x :: x in s ==> a(x) == b(x)
    ensures Each(s, a) == Each(s, b)
  {
    if s != [] { EachSame(s[1..], a, b); }
  }

  lemma {:induction false} EachIdentity(s: string)
    ensures Each(s, x => [x]) == s
  {
    if s != [] {
      EachIdentity(s[1..]);
      assert s == [s[0]] + s[1..];
    }
  }

  /** No code is empty or the start of another. */
  ghost predicate IsPrefixCode(code: char -> string) {
    (forall x :: code(x) != []) && (forall x, y :: code(x) <= code(y) ==> x == y)
  }

  lemma EachEmpty(s: string, code: char -> string)
    requires IsPrefixCode(code)
    ensures Each(s, code) == [] <==> s == []
  {
    assert s != [] ==> code(s[0]) != [];
  }

  lemma PrefixesCompare(a: string, b: string, u: string)
    requires a <= u && b <= u
    ensures a <= b || b <= a
  {
    assert a == u[..|a|] && b == u[..|b|];
    assert |a| <= |b| ==> u[..|b|][..|a|] == u[..|a|];
    assert |b| <= |a| ==> u[..|a|][..|b|] == u[..|b|];
  }

  /** A text substituted by a prefix code can be decoded uniquely. */
  lemma {:induction false} UniquelyDecodable(s: string, t: string, code: char -> string)
    requires IsPrefixCode(code) && Each(s, code) == Each(t, code)
    ensures s == t
  {
    EachEmpty(s, code);
    EachEmpty(t, code);
    if s != [] {
      var a, u := code(s[0]), Each(s, code);
      PrefixesCompare(a, code(t[0]), u);
      assert s[0] == t[0];
      assert Each(s[1..], code) == u[|a|..] == Each(t[1..], code);
      UniquelyDecodable(s[1..], t[1..], code);
      assert s == [s[0]] + s[1..] && t == [t[0]] + t[1..];
    }
  }

  lemma {:induction false} InEach(s: string, code: char -> string, y: char)
    ensures y in Each(s, code) <==> exists x :: x in s && y in code(x)
  {
    if s != [] {
      InEach(s[1..], code, y);
      assert s == [s[0]] + s[1..];
      if y in code(s[0]) { assert s[0] in s; }
      if y in Each(s[1..], code) {
        var x :| x in s[1..] && y in code(x);
        assert x in s;
      }
      if x :| x in s && y in code(x) {
        assert x == s[0] || x in s[1..];
      }
    }
  }

  lemma NotInEach(s: string, code: char -> string, y: char)
    requires forall x :: y !in code(x)
    ensures y !in Each(s, code)
  {
    InEach(s, code, y);
  }

  // ----- chains of passes

  datatype Pass = Pass(find: string, put: string)

  predicate ArePasses(ps: seq<Pass>) {
    forall k :: 0 <= k < |ps| ==> |ps[k].find| >= 1
  }

  /** s = s.replace(find, put) for every pass in turn. */
  function RunPasses(s: string, ps: seq<Pass>): string
    requires ArePasses(ps)
  {
    if ps == [] then s
    else
      var k := |ps| - 1;
      Replace(RunPasses(s, ps[..k]), ps[k].find, ps[k].put)
  }

  /** What the passes make of one character. */
  function CodeOf(ps: seq<Pass>): char -> string
    requires ArePasses(ps)
  {
    x => RunPasses([x], ps)
  }

  /** No pass finds anything that straddles the codes of two characters. */
  ghost predicate AreClosed(ps: seq<Pass>)
    requires ArePasses(ps)
  {
    forall k, x :: 0 <= k < |ps| ==> Closed(CodeOf(ps[..k])(x), ps[k].find)
  }

  /** Such a chain is one simultaneous substitution. */
  lemma {:induction false} PassesAreSimultaneous(s: string, ps: seq<Pass>)
    requires ArePasses(ps) && AreClosed(ps)
    ensures RunPasses(s, ps) == Each(s, CodeOf(ps))
    decreases |ps|
  {
    if ps == [] {
      EachIdentity(s);
      EachSame(s, x => [x], CodeOf(ps));
    } else {
      var k := |ps| - 1;
      assert forall j :: 0 <= j < k ==> ps[..k][..j] == ps[..j];
      PassesAreSimultaneous(s, ps[..k]);
      ReplaceEach(s, CodeOf(ps[..k]), ps[k].find, ps[k].put, CodeOf(ps));
    }
  }

  lemma OnePass(s: string, ps: seq<Pass>, k: nat)
    requires ArePasses(ps) && k < |ps|
    ensures RunPasses(s, ps[..k + 1]) == Replace(RunPasses(s, ps[..k]), ps[k].find, ps[k].put)
  {
    assert ps[..k + 1][..k] == ps[..k];
  }

  /** Passes that find nothing. */
  lemma {:induction false} PassesSkip(s: string, ps: seq<Pass>, i: nat, j: nat)
    requires ArePasses(ps) && i <= j <= |ps|
    requires forall k :: i <= k < j ==> ps[k].find[0] !in RunPasses(s, ps[..i])
    ensures RunPasses(s, ps[..j]) == RunPasses(s, ps[..i])
    decreases j
  {
    if i < j {
      PassesSkip(s, ps, i, j - 1);
      OnePass(s, ps, j - 1);
      ReplaceNothing(RunPasses(s, ps[..i]), ps[j - 1].find, ps[j - 1].put);
    }
  }

  /** A character that no pass looks for. */
  lemma PlainChar(x: char, ps: seq<Pass>, n: nat)
    requires ArePasses(ps) && n <= |ps| && forall k :: 0 <= k < n ==> ps[k].find[0] != x
    ensures RunPasses([x], ps[..n]) == [x]
  {
    assert ps[..0] == [];
    PassesSkip([x], ps, 0, n);
  }

  /** A character that pass m is the first to find, and that leaves nothing for the later passes up to n. */
  lemma FoundChar(x: char, ps: seq<Pass>, m: nat, n: nat)
    requires ArePasses(ps) && m < n <= |ps| && ps[m].find == [x]
    requires forall k :: 0 <= k < m ==> ps[k].find[0] != x
    requires forall k :: m < k < n ==> ps[k].find[0] !in ps[m].put
    ensures RunPasses([x], ps[..n]) == ps[m].put
  {
    PlainChar(x, ps, m);
    OnePass([x], ps, m);
    ReplaceOne(x, x, ps[m].put);
    PassesSkip([x], ps, m + 1, n);
  }

  lemma ReplaceOne(x: char, y: char, new_: string)
    ensures Replace([x], [y], new_) == if x == y then new_ else [x]
  {
    assert Replace([], [y], new_) == [];
    assert [x][1..] == [];
    assert [x][..1] == [x] && [y][..1] == [y];
    assert [y] <= [x] <==> [y] == [x];
    assert [x][0] == x && [y][0] == y;
    assert new_ + [] == new_;
  }

  // ----- HTML

  const HTML: seq<Pass> := [Pass("&", "&amp;"), Pass("<", "&lt;"), Pass(">", "&gt;"), Pass("\"", "&quot;"),
                            Pass("\"", "&#39;")]

  function HtmlCode(x: char): string {
    match x
    case '&' => "&amp;"
    case '<' => "&lt;"
    case '>' => "&gt;"
    case '"' => "&quot;"
    case _ => [x]
  }

  lemma HtmlOfChar(x: char)
    ensures RunPasses([x], HTML) == HtmlCode(x)
  {
    assert HTML[..5] == HTML;
    match x
    case '&' => FoundChar(x, HTML, 0, 5);
    case '<' => FoundChar(x, HTML, 1, 5);
    case '>' => FoundChar(x, HTML, 2, 5);
    case '"' => FoundChar(x, HTML, 3, 5);
    case _ => PlainChar(x, HTML, 5);
  }

  /** The HTML passes replace every character once, all at the same time. */
  lemma HtmlIsSimultaneous(s: string)
    ensures RunPasses(s, HTML) == Each(s, HtmlCode)
  {
    PassesAreSimultaneous(s, HTML);
    forall x ensures CodeOf(HTML)(x) == HtmlCode(x) { HtmlOfChar(x); }
    EachSame(s, CodeOf(HTML), HtmlCode);
  }

  lemma HtmlIsPrefixCode()
    ensures IsPrefixCode(HtmlCode)
  {
    forall x, y | HtmlCode(x) <= HtmlCode(y) ensures x == y {
      assert HtmlCode(x)[0] == HtmlCode(y)[0];
      assert HtmlCode(x)[..|HtmlCode(x)|] == HtmlCode(y)[..|HtmlCode(x)|];
      if |HtmlCode(x)| > 1 { assert HtmlCode(x)[1] == HtmlCode(y)[1]; }
    }
  }

  /** Texts can be told apart after escaping. */
  lemma HtmlIsDecodable(s: string, t: string)
    requires RunPasses(s, HTML) == RunPasses(t, HTML)
    ensures s == t
  {
    HtmlIsSimultaneous(s);
    HtmlIsSimultaneous(t);
    HtmlIsPrefixCode();
    UniquelyDecodable(s, t, HtmlCode);
  }

  lemma NotInHtmlCode(x: char, y: char)
    requires y == '<' || y == '>' || y == '"'
    ensures y !in HtmlCode(x)
  {
  }

  /** No markup character survives. */
  lemma HtmlIsSafe(s: string, y: char)
    requires y == '<' || y == '>' || y == '"'
    ensures y !in RunPasses(s, HTML)
  {
    HtmlIsSimultaneous(s);
    forall x ensures y !in HtmlCode(x) { NotInHtmlCode(x, y); }
    NotInEach(s, HtmlCode, y);
  }

  /**
   The last pass was meant for apostrophes, but they stay: there is one after escaping exactly when
   there was one before.
   */
  lemma ApostropheSurvivesIff(s: string)
    ensures '\'' in RunPasses(s, HTML) <==> '\'' in s
  {
    HtmlIsSimultaneous(s);
    InEach(s, HtmlCode, '\'');
    if '\'' in s { assert '\'' in HtmlCode('\''); }
  }

  // ----- LaTeX

  const LATEX: seq<Pass> :=
    [Pass("\\", "\\x"), Pass("#", "\\#"), Pass("$", "\\$"), Pass("%", "\\%"), Pass("&", "\\&"), Pass("_", "\\_"),
     Pass("{", "\\{"), Pass("}", "\\}"), Pass("\\x", "\\textbackslash{}"), Pass("~", "\\textasciitilde{}"),
     Pass("^", "\\textasciicircum{}")]

  /** The characters that get a backslash in front, and the pass that puts it there. */
  function QuotedBy(x: char): Option<nat> {
    match x
    case '#' => Some(1)
    case '$' => Some(2)
    case '%' => Some(3)
    case '&' => Some(4)
    case '_' => Some(5)
    case '{' => Some(6)
    case '}' => Some(7)
    case _ => None
  }

  function LatexCode(x: char): string {
    if QuotedBy(x).Some? then ['\\', x]
    else
      match x
      case '\\' => "\\textbackslash{}"
      case '~' => "\\textasciitilde{}"
      case '^' => "\\textasciicircum{}"
      case _ => [x]
  }

  /** After eight passes: a backslash has become the marker. */
  function MarkedCode(x: char): string {
    if QuotedBy(x).Some? then ['\\', x] else if x == '\\' then "\\x" else [x]
  }

  lemma MarkedOfChar(x: char)
    ensures RunPasses([x], LATEX[..8]) == MarkedCode(x)
  {
    if QuotedBy(x).Some? {
      FoundChar(x, LATEX, QuotedBy(x).value, 8);
    } else if x == '\\' {
      FoundChar(x, LATEX, 0, 8);
    } else {
      PlainChar(x, LATEX, 8);
    }
  }

  /** The ninth pass finds the marker, and only where a backslash was. */
  lemma MarkerPass(x: char)
    ensures Replace(MarkedCode(x), "\\x", "\\textbackslash{}")
            == if x == '\\' then "\\textbackslash{}" else MarkedCode(x)
  {
    var find, put := "\\x", "\\textbackslash{}";
    assert Replace([], find, put) == [];
    if x == '\\' {
      HitStep(find, [], find, put);
    } else if QuotedBy(x).Some? {
      assert MarkedCode(x)[1] != find[1];
      MissStep(MarkedCode(x), [x], find, put);
      ReplaceNothing([x], find, put);
    } else {
      ReplaceNothing([x], find, put);
    }
  }

  lemma AfterNine(x: char)
    requires x == '\\' || QuotedBy(x).Some?
    ensures RunPasses([x], LATEX[..9]) == LatexCode(x)
  {
    MarkedOfChar(x);
    MarkerPass(x);
    OnePass([x], LATEX, 8);
  }

  lemma NothingLeft(x: char)
    requires x == '\\' || QuotedBy(x).Some?
    ensures '~' !in LatexCode(x) && '^' !in LatexCode(x)
  {
  }

  /** The characters that the first eight passes find. */
  lemma MarkedIsLatex(x: char)
    requires x == '\\' || QuotedBy(x).Some?
    ensures RunPasses([x], LATEX[..11]) == LatexCode(x)
  {
    AfterNine(x);
    NothingLeft(x);
    PassesSkip([x], LATEX, 9, 11);
  }

  lemma LatexOfChar(x: char)
    ensures RunPasses([x], LATEX) == LatexCode(x)
  {
    assert LATEX[..11] == LATEX;
    if x == '\\' || QuotedBy(x).Some? {
      MarkedIsLatex(x);
    } else if x == '~' {
      FoundChar(x, LATEX, 9, 11);
    } else if x == '^' {
      FoundChar(x, LATEX, 10, 11);
    } else {
      PlainChar(x, LATEX, 11);
    }
  }

  lemma LatexIsClosed()
    ensures AreClosed(LATEX)
  {
    forall k, x | 0 <= k < |LATEX| ensures Closed(CodeOf(LATEX[..k])(x), LATEX[k].find) {
      if k == 8 { MarkedOfChar(x); }
    }
  }

  /** The LaTeX passes, marker and all, replace every character once, all at the same time. */
  lemma LatexIsSimultaneous(s: string)
    ensures RunPasses(s, LATEX) == Each(s, LatexCode)
  {
    LatexIsClosed();
    PassesAreSimultaneous(s, LATEX);
    forall x ensures CodeOf(LATEX)(x) == LatexCode(x) { LatexOfChar(x); }
    EachSame(s, CodeOf(LATEX), LatexCode);
  }

  lemma LatexIsPrefixCode()
    ensures IsPrefixCode(LatexCode)
  {
    forall x, y | LatexCode(x) <= LatexCode(y) ensures x == y {
      var a, b := LatexCode(x), LatexCode(y);
      assert a[0] == b[0];
      if |a| > 1 { assert a[1] == b[1]; }
      if |a| > 10 { assert a[5] == b[5] && a[10] == b[10]; }
    }
  }

  lemma LatexIsDecodable(s: string, t: string)
    requires RunPasses(s, LATEX) == RunPasses(t, LATEX)
    ensures s == t
  {
    LatexIsSimultaneous(s);
    LatexIsSimultaneous(t);
    LatexIsPrefixCode();
    UniquelyDecodable(s, t, LatexCode);
  }

  // ----- escape

  datatype Format = NoEscape | Html | Latex | Unsupported

  /** escape; None is the ValueError. */
  function Escape(s: string, format: Format): (r: Option<string>)
    ensures r.Some? <==> format != Unsupported
    ensures format == NoEscape ==> r == Some(s)
    ensures format == Html ==> r == Some(Each(s, HtmlCode))
    ensures format == Latex ==> r == Some(Each(s, LatexCode))
  {
    match format
    case NoEscape => Some(s)
    case Html => HtmlIsSimultaneous(s); Some(RunPasses(s, HTML))
    case Latex => LatexIsSimultaneous(s); Some(RunPasses(s, LATEX))
    case Unsupported => None
  }
}
