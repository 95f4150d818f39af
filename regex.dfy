/**
 * The minimal regular-expression matcher of logknife (the Kernighan/Pike
 * matcher): a leading `^` anchors at the start, a final `$` at the end,
 * `.` matches any character and `c*` matches zero or more `c` (or any
 * characters when `c` is `.`). Every other character is literal.
 *
 * Patterns and texts are the contents of C strings, so they hold no NUL;
 * the end of a sequence plays the part of the terminating NUL.
 */
module Regex {

  /** Pattern character `c` accepts text character `x`. */
  predicate CharMatches(c: char, x: char) {
    c == '.' || c == x
  }

  /** Every character of `s` is accepted by the starred character `c`. */
  predicate Repeats(c: char, s: string) {
    forall i :: 0 <= i < |s| ==> CharMatches(c, s[i])
  }

  // ---------------------------------------------------------------------
  // The matcher as written: matchhere, matchstar and matchre
  // ---------------------------------------------------------------------

  /** matchhere: does `re` match a prefix of `t`? */
  function MatchHere(re: string, t: string): bool
    decreases |re|, |t|, 1
  {
    if re == [] then true
    else if re == "$" then t == []
    else if |re| >= 2 && re[1] == '*' then MatchStar(re[0], re[2..], t)
    else |t| > 0 && CharMatches(re[0], t[0]) && MatchHere(re[1..], t[1..])
  }

  /**
   * matchstar: the do-while loop first tries `re` at the current position
   * (zero repetitions) and then consumes one more character accepted by `c`.
   */
  function MatchStar(c: char, re: string, t: string): bool
    decreases |re| + 1, |t|, 0
  {
    MatchHere(re, t) || (|t| > 0 && CharMatches(c, t[0]) && MatchStar(c, re, t[1..]))
  }

  /** The unanchored search of matchre: positions 0 to |t|, end included. */
  function MatchSomewhere(re: string, t: string): bool
    decreases |t|
  {
    MatchHere(re, t) || (|t| > 0 && MatchSomewhere(re, t[1..]))
  }

  predicate StartAnchored(re: string) {
    |re| > 0 && re[0] == '^'
  }

  /** matchre: the result the C function returns. */
  function Matches(re: string, t: string): bool {
    if StartAnchored(re) then MatchHere(re[1..], t) else MatchSomewhere(re, t)
  }

  /** matchre with its pointer loop written out. */
  method MatchRe(re: string, text: string) returns (found: bool)
    ensures found == Matches(re, text)
    ensures !StartAnchored(re) ==>
      (found <==> exists i :: 0 <= i <= |text| && MatchHere(re, text[i..]))
  {
    MatchSomewhereIff(re, text);
    if StartAnchored(re) {
      return MatchHere(re[1..], text);
    }
    var i := 0;
    while true
      invariant 0 <= i <= |text|
      invariant forall j :: 0 <= j < i ==> !MatchHere(re, text[j..])
      decreases |text| - i
    {
      if MatchHere(re, text[i..]) {
        return true;
      }
      if i == |text| {
        return false;
      }
      i := i + 1;
    }
  }

  // ---------------------------------------------------------------------
  // Properties of matchhere, matchstar and matchre
  // ---------------------------------------------------------------------

  /** An empty pattern matches any text; `$` alone matches only at the end. */
  lemma EmptyAndDollar(t: string)
    ensures MatchHere("", t)
    ensures MatchHere("$", t) <==> t == []
  {
  }

  /**
   * A pattern character not followed by `*` consumes exactly one text
   * character; this includes a `$` that is not the last pattern character.
   */
  lemma LiteralStep(re: string, t: string)
    requires |re| >= 1 && re != "$"
    requires |re| == 1 || re[1] != '*'
    ensures MatchHere(re, t) <==>
      |t| > 0 && (re[0] == '.' || re[0] == t[0]) && MatchHere(re[1..], t[1..])
  {
  }

  /** A `$` that is not last (and not starred) matches a literal `$`. */
  lemma InnerDollarIsLiteral(re: string, t: string)
    requires |re| >= 2 && re[0] == '$' && re[1] != '*'
    ensures MatchHere(re, t) <==> |t| > 0 && t[0] == '$' && MatchHere(re[1..], t[1..])
  {
  }

  /** matchstar succeeds iff some run of k accepted characters leaves a text `re` matches. */
  lemma {:induction false} MatchStarIff(c: char, re: string, t: string)
    ensures MatchStar(c, re, t) <==>
      exists k :: 0 <= k <= |t| && Repeats(c, t[..k]) && MatchHere(re, t[k..])
    decreases |t|
  {
    if MatchStar(c, re, t) {
      if MatchHere(re, t) {
        assert Repeats(c, t[..0]) && t[0..] == t;
      } else {
        MatchStarIff(c, re, t[1..]);
        var k :| 0 <= k <= |t[1..]| && Repeats(c, t[1..][..k]) && MatchHere(re, t[1..][k..]);
        assert t[..k + 1] == [t[0]] + t[1..][..k];
        assert t[k + 1..] == t[1..][k..];
        assert Repeats(c, t[..k + 1]);
      }
    }
    if exists k :: 0 <= k <= |t| && Repeats(c, t[..k]) && MatchHere(re, t[k..]) {
      var k :| 0 <= k <= |t| && Repeats(c, t[..k]) && MatchHere(re, t[k..]);
      if k == 0 {
        assert t[0..] == t;
      } else {
        assert CharMatches(c, t[..k][0]);
        assert t[1..][..k - 1] == t[1..k];
        assert Repeats(c, t[1..][..k - 1]);
        assert t[1..][k - 1..] == t[k..];
        MatchStarIff(c, re, t[1..]);
      }
    }
  }

  /** Zero repetitions are tried first: a match of the rest right here suffices. */
  lemma StarZeroFirst(c: char, re: string, t: string)
    requires MatchHere(re, t)
    ensures MatchStar(c, re, t)
  {
  }

  /** The unanchored search tries every start position 0..|t|, the end included. */
  lemma {:induction false} MatchSomewhereIff(re: string, t: string)
    ensures MatchSomewhere(re, t) <==> exists i :: 0 <= i <= |t| && MatchHere(re, t[i..])
    decreases |t|
  {
    if MatchSomewhere(re, t) {
      if MatchHere(re, t) {
        assert t[0..] == t;
      } else {
        MatchSomewhereIff(re, t[1..]);
        var i :| 0 <= i <= |t[1..]| && MatchHere(re, t[1..][i..]);
        assert t[1..][i..] == t[i + 1..];
      }
    }
    if exists i :: 0 <= i <= |t| && MatchHere(re, t[i..]) {
      var i :| 0 <= i <= |t| && MatchHere(re, t[i..]);
      if i == 0 {
        assert t[0..] == t;
      } else {
        assert t[1..][i - 1..] == t[i..];
        MatchSomewhereIff(re, t[1..]);
      }
    }
  }

  /** matchre: anchored patterns try offset 0 only, others every offset 0..|t|. */
  lemma MatchesIff(re: string, t: string)
    ensures StartAnchored(re) ==> (Matches(re, t) <==> MatchHere(re[1..], t))
    ensures !StartAnchored(re) ==>
      (Matches(re, t) <==> exists i :: 0 <= i <= |t| && MatchHere(re, t[i..]))
  {
    MatchSomewhereIff(re, t);
  }

  /** Prefixing `^` narrows the search to offset 0 and never widens it. */
  lemma AnchorNarrows(re: string, t: string)
    ensures Matches("^" + re, t) <==> MatchHere(re, t)
    ensures !StartAnchored(re) ==> (Matches("^" + re, t) ==> Matches(re, t))
  {
    assert ("^" + re)[1..] == re;
    MatchSomewhereIff(re, t);
    assert t[0..] == t;
  }

  /** The empty pattern and `.*` match every text. */
  lemma MatchesEverything(t: string)
    ensures Matches("", t)
    ensures Matches(".*", t)
  {
    assert ".*"[1] == '*' && ".*"[2..] == "";
    assert MatchHere(".*", t);
  }

  /** The examples `a*` on "" and on "aaab", and case sensitivity. */
  lemma Examples()
    ensures Matches("a*", "")
    ensures Matches("a*", "aaab")
    ensures !Matches("error", "ERROR")
  {
    assert !MatchHere("error", "ERROR");
    assert !MatchHere("error", "RROR");
    assert !MatchHere("error", "ROR");
    assert !MatchHere("error", "OR");
    assert !MatchHere("error", "R");
    assert !MatchHere("error", "");
    assert "ERROR"[1..] == "RROR" && "RROR"[1..] == "ROR" && "ROR"[1..] == "OR";
    assert "OR"[1..] == "R" && "R"[1..] == "";
  }

  // ---------------------------------------------------------------------
  // A declarative meaning for patterns, and the matcher proved against it
  // ---------------------------------------------------------------------

  /** A pattern element: one literal (or `.`), or a starred literal. */
  datatype Token = Lit(c: char) | Star(c: char)

  /** A pattern read as matchhere reads it: its elements and whether it ends in `$`. */
  datatype Pattern = Pattern(tokens: seq<Token>, endAnchored: bool)

  /** Reads a pattern (without a leading `^`) the way matchhere consumes it. */
  function Parse(re: string): (p: Pattern)
    decreases |re|
  {
    if re == [] then Pattern([], false)
    else if re == "$" then Pattern([], true)
    else if |re| >= 2 && re[1] == '*' then
      var rest := Parse(re[2..]);
      Pattern([Star(re[0])] + rest.tokens, rest.endAnchored)
    else
      var rest := Parse(re[1..]);
      Pattern([Lit(re[0])] + rest.tokens, rest.endAnchored)
  }

  /** The token sequence matches all of `s`. */
  ghost predicate Full(tokens: seq<Token>, s: string)
    decreases |tokens|
  {
    if tokens == [] then s == []
    else match tokens[0]
      case Lit(c) => |s| > 0 && CharMatches(c, s[0]) && Full(tokens[1..], s[1..])
      case Star(c) =>
        exists k :: 0 <= k <= |s| && Repeats(c, s[..k]) && Full(tokens[1..], s[k..])
  }

  /** A match starting at the beginning of `t`, reaching its end when `$`-anchored. */
  ghost predicate MatchesAt(p: Pattern, t: string) {
    if p.endAnchored then Full(p.tokens, t)
    else exists k :: 0 <= k <= |t| && Full(p.tokens, t[..k])
  }

  /** Some substring t[i..j] matches, at i == 0 under `^` and at j == |t| under `$`. */
  ghost predicate Search(re: string, t: string) {
    var p := Parse(if StartAnchored(re) then re[1..] else re);
    exists i, j :: 0 <= i <= j <= |t| && (StartAnchored(re) ==> i == 0) &&
      (p.endAnchored ==> j == |t|) && Full(p.tokens, t[i..j])
  }

  /** A pattern is end-anchored exactly when its last character is `$`. */
  lemma {:induction false} EndAnchoredIff(re: string)
    ensures Parse(re).endAnchored <==> |re| > 0 && re[|re| - 1] == '$'
    decreases |re|
  {
    if re == [] || re == "$" {
    } else if |re| >= 2 && re[1] == '*' {
      EndAnchoredIff(re[2..]);
      if |re| > 2 {
        assert re[2..][|re[2..]| - 1] == re[|re| - 1];
      }
    } else {
      EndAnchoredIff(re[1..]);
      if |re| > 1 {
        assert re[1..][|re[1..]| - 1] == re[|re| - 1];
      }
    }
  }

  /** One starred element in front of a pattern: choose how many characters it takes. */
  lemma StarStep(c: char, rest: Pattern, t: string)
    ensures MatchesAt(Pattern([Star(c)] + rest.tokens, rest.endAnchored), t) <==>
      exists k :: 0 <= k <= |t| && Repeats(c, t[..k]) && MatchesAt(rest, t[k..])
  {
    var toks := [Star(c)] + rest.tokens;
    assert toks[0] == Star(c) && toks[1..] == rest.tokens;
    if !rest.endAnchored {
      if MatchesAt(Pattern(toks, false), t) {
        var j :| 0 <= j <= |t| && Full(toks, t[..j]);
        var k :| 0 <= k <= j && Repeats(c, t[..j][..k]) && Full(rest.tokens, t[..j][k..]);
        assert t[..j][..k] == t[..k];
        assert t[..j][k..] == t[k..][..j - k];
        assert MatchesAt(rest, t[k..]);
      }
      if exists k :: 0 <= k <= |t| && Repeats(c, t[..k]) && MatchesAt(rest, t[k..]) {
        var k :| 0 <= k <= |t| && Repeats(c, t[..k]) && MatchesAt(rest, t[k..]);
        var m :| 0 <= m <= |t[k..]| && Full(rest.tokens, t[k..][..m]);
        var j := k + m;
        assert t[..j][..k] == t[..k];
        assert t[..j][k..] == t[k..][..m];
        assert Full(toks, t[..j]);
      }
    }
  }

  /** One literal element in front of a pattern: it takes exactly one character. */
  lemma LitStep(c: char, rest: Pattern, t: string)
    ensures MatchesAt(Pattern([Lit(c)] + rest.tokens, rest.endAnchored), t) <==>
      |t| > 0 && CharMatches(c, t[0]) && MatchesAt(rest, t[1..])
  {
    var toks := [Lit(c)] + rest.tokens;
    assert toks[0] == Lit(c) && toks[1..] == rest.tokens;
    if !rest.endAnchored {
      if MatchesAt(Pattern(toks, false), t) {
        var j :| 0 <= j <= |t| && Full(toks, t[..j]);
        assert t[..j][1..] == t[1..][..j - 1];
        assert MatchesAt(rest, t[1..]);
      }
      if |t| > 0 && CharMatches(c, t[0]) && MatchesAt(rest, t[1..]) {
        var m :| 0 <= m <= |t[1..]| && Full(rest.tokens, t[1..][..m]);
        assert t[..m + 1][1..] == t[1..][..m];
        assert Full(toks, t[..m + 1]);
      }
    }
  }

  /** matchhere is correct: it succeeds exactly when the pattern's meaning matches at offset 0. */
  lemma {:induction false} MatchHereCorrect(re: string, t: string)
    ensures MatchHere(re, t) <==> MatchesAt(Parse(re), t)
    decreases |re|
  {
    if re == [] {
      assert Full([], t[..0]);
    } else if re == "$" {
    } else if |re| >= 2 && re[1] == '*' {
      forall k | 0 <= k <= |t|
        ensures MatchHere(re[2..], t[k..]) <==> MatchesAt(Parse(re[2..]), t[k..])
      {
        MatchHereCorrect(re[2..], t[k..]);
      }
      MatchStarIff(re[0], re[2..], t);
      StarStep(re[0], Parse(re[2..]), t);
    } else {
      if |t| > 0 {
        MatchHereCorrect(re[1..], t[1..]);
      }
      LitStep(re[0], Parse(re[1..]), t);
    }
  }

  /** A match matchre finds is a substring meeting the pattern's meaning. */
  lemma MatchesSound(re: string, t: string)
    requires Matches(re, t)
    ensures Search(re, t)
  {
    var body := if StartAnchored(re) then re[1..] else re;
    var p := Parse(body);
    MatchesIff(re, t);
    var i := if StartAnchored(re) then 0 else
      var i' :| 0 <= i' <= |t| && MatchHere(body, t[i'..]); i';
    MatchHereCorrect(body, t[i..]);
    assert MatchesAt(p, t[i..]);
    var j := if p.endAnchored then |t| else
      var k :| 0 <= k <= |t[i..]| && Full(p.tokens, t[i..][..k]); i + k;
    assert t[i..j] == if p.endAnchored then t[i..] else t[i..][..j - i];
    assert Full(p.tokens, t[i..j]);
  }

  /** Every substring meeting the pattern's meaning makes matchre succeed. */
  lemma MatchesComplete(re: string, t: string)
    requires Search(re, t)
    ensures Matches(re, t)
  {
    var body := if StartAnchored(re) then re[1..] else re;
    var p := Parse(body);
    MatchesIff(re, t);
    var i, j :| 0 <= i <= j <= |t| && (StartAnchored(re) ==> i == 0) &&
      (p.endAnchored ==> j == |t|) && Full(p.tokens, t[i..j]);
    assert t[i..j] == if p.endAnchored then t[i..] else t[i..][..j - i];
    assert MatchesAt(p, t[i..]);
    MatchHereCorrect(body, t[i..]);
    assert StartAnchored(re) ==> t[i..] == t;
  }

  /** matchre is correct: it succeeds exactly when some substring matches the pattern's meaning. */
  lemma MatchesCorrect(re: string, t: string)
    ensures Matches(re, t) <==> Search(re, t)
  {
    if Matches(re, t) {
      MatchesSound(re, t);
    }
    if Search(re, t) {
      MatchesComplete(re, t);
    }
  }

  /** Appending `$` to a pattern that does not end in `$` only adds the end anchor. */
  lemma {:induction false} ParseAppendDollar(re: string)
    requires re == [] || re[|re| - 1] != '$'
    ensures Parse(re + "$") == Pattern(Parse(re).tokens, true)
    decreases |re|
  {
    var r := re + "$";
    if re == [] {
      assert r == "$";
    } else if |re| >= 2 && re[1] == '*' {
      assert r[1] == '*' && r[2..] == re[2..] + "$";
      ParseAppendDollar(re[2..]);
    } else {
      assert r != "$" && r[1..] == re[1..] + "$";
      assert |re| == 1 ==> r[1] == '$';
      ParseAppendDollar(re[1..]);
    }
  }

  /** For an end-anchored, unanchored-at-start pattern, a match is a suffix matching its tokens. */
  lemma SearchSuffix(re: string, toks: seq<Token>, t: string)
    requires !StartAnchored(re) && Parse(re) == Pattern(toks, true)
    ensures Search(re, t) <==> exists i :: 0 <= i <= |t| && Full(toks, t[i..])
  {
    if Search(re, t) {
      var i, j :| 0 <= i <= j <= |t| && j == |t| && Full(toks, t[i..j]);
      assert t[i..j] == t[i..];
    }
    if exists i :: 0 <= i <= |t| && Full(toks, t[i..]) {
      var i :| 0 <= i <= |t| && Full(toks, t[i..]);
      assert t[i..|t|] == t[i..];
    }
  }

  /** `P$` matches T exactly when some match of P ends at the end of T. */
  lemma EndAnchorIff(re: string, t: string)
    requires re == [] || re[|re| - 1] != '$'
    requires !StartAnchored(re)
    ensures Matches(re + "$", t) <==>
      exists i :: 0 <= i <= |t| && Full(Parse(re).tokens, t[i..])
  {
    var r := re + "$";
    assert !StartAnchored(r) by {
      if re != [] {
        assert r[0] == re[0];
      }
    }
    ParseAppendDollar(re);
    MatchesCorrect(r, t);
    SearchSuffix(r, Parse(re).tokens, t);
  }
}
