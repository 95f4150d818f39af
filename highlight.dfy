/**
 * The keyword highlighter of logknife (print_highlighted). It repeatedly
 * finds the leftmost occurrence of any highlight word (ties go to the word
 * given first), copies the text before it, and wraps the word in an ANSI
 * colour: red for ERROR, yellow for WARN and WARNING (compared ignoring
 * ASCII case), cyan for every other word.
 *
 * The output is returned as a string instead of being written to stdout.
 */
module Highlight {

  datatype Option<T> = None | Some(value: T)

  const Esc: char := 27 as char
  const Red: string := [Esc] + "[31m"
  const Yellow: string := [Esc] + "[33m"
  const Cyan: string := [Esc] + "[36m"
  const Reset: string := [Esc] + "[0m"

  // ---------------------------------------------------------------------
  // strcasecmp and the colour of a word
  // ---------------------------------------------------------------------

  function ToLower(c: char): char {
    if 'A' <= c <= 'Z' then (c as int + 32) as char else c
  }

  /** `s` with ASCII upper-case letters turned to lower case, as tolower does in the C locale. */
  function Lower(s: string): string {
    seq(|s|, i requires 0 <= i < |s| => ToLower(s[i]))
  }

  /** strcasecmp(a, b) == 0, compared character by character. */
  predicate EqualsIgnoreCase(a: string, b: string)
    decreases |a|
  {
    if a == [] || b == [] then a == b
    else ToLower(a[0]) == ToLower(b[0]) && EqualsIgnoreCase(a[1..], b[1..])
  }

  /** Two strings are equal ignoring case exactly when their lower-case forms are equal. */
  lemma {:induction false} EqualsIgnoreCaseIff(a: string, b: string)
    ensures EqualsIgnoreCase(a, b) <==> Lower(a) == Lower(b)
    decreases |a|
  {
    if a != [] && b != [] {
      EqualsIgnoreCaseIff(a[1..], b[1..]);
      assert Lower(a) == [ToLower(a[0])] + Lower(a[1..]);
      assert Lower(b) == [ToLower(b[0])] + Lower(b[1..]);
      if Lower(a) == Lower(b) {
        assert Lower(a)[1..] == Lower(a[1..]);
        assert Lower(b)[1..] == Lower(b[1..]);
      }
    }
  }

  /** The colour print_highlighted wraps a highlight word in. */
  function ColorOf(w: string): string {
    if EqualsIgnoreCase(w, "ERROR") then Red
    else if EqualsIgnoreCase(w, "WARN") || EqualsIgnoreCase(w, "WARNING") then Yellow
    else Cyan
  }

  /** Red exactly for ERROR, yellow exactly for WARN and WARNING, in any ASCII case; cyan otherwise. */
  lemma ColorOfCases(w: string)
    ensures ColorOf(w) == Red <==> Lower(w) == "error"
    ensures ColorOf(w) == Yellow <==> Lower(w) == "warn" || Lower(w) == "warning"
    ensures ColorOf(w) == Cyan <==> Lower(w) != "error" && Lower(w) != "warn" && Lower(w) != "warning"
  {
    EqualsIgnoreCaseIff(w, "ERROR");
    EqualsIgnoreCaseIff(w, "WARN");
    EqualsIgnoreCaseIff(w, "WARNING");
    assert Lower("ERROR") == "error" && Lower("WARN") == "warn" && Lower("WARNING") == "warning";
    assert Red[3] == '1' && Yellow[3] == '3' && Cyan[3] == '6';
  }

  // ---------------------------------------------------------------------
  // strstr and the choice of the next word
  // ---------------------------------------------------------------------

  /** `w` occurs in `p` at offset `i`. */
  predicate OccursAt(p: string, w: string, i: int) {
    0 <= i && i + |w| <= |p| && p[i..i + |w|] == w
  }

  /** strstr scanning from offset `from`. */
  function FindFrom(p: string, w: string, from: nat): (r: Option<nat>)
    ensures r.Some? ==> from <= r.value && r.value + |w| <= |p|
    decreases |p| - from
  {
    if from + |w| > |p| then None
    else if p[from..from + |w|] == w then Some(from)
    else FindFrom(p, w, from + 1)
  }

  /** strstr(p, w): the offset of the first occurrence, if any. */
  function Find(p: string, w: string): Option<nat> {
    FindFrom(p, w, 0)
  }

  /** FindFrom finds an occurrence at or after `from`, and none comes before it. */
  lemma {:induction false} FindFromFirst(p: string, w: string, from: nat)
    ensures FindFrom(p, w, from).Some? ==> OccursAt(p, w, FindFrom(p, w, from).value)
    ensures forall i :: from <= i && OccursAt(p, w, i) ==>
      FindFrom(p, w, from).Some? && FindFrom(p, w, from).value <= i
    decreases |p| - from
  {
    if from + |w| <= |p| && p[from..from + |w|] != w {
      FindFromFirst(p, w, from + 1);
    }
  }

  /** A candidate span: word `index` found at offset `pos`. */
  datatype Hit = Hit(pos: nat, index: nat)

  /** No occurrence of the first `n` words comes before `h` (ties broken by word order). */
  ghost predicate NoEarlier(h: Hit, p: string, words: seq<string>, n: nat)
    requires n <= |words|
  {
    forall j, q :: 0 <= j < n && OccursAt(p, words[j], q) ==>
      h.pos < q || (h.pos == q && h.index <= j)
  }

  /**
   * The best hit among the first `n` words, as the inner for loop keeps it:
   * a later word replaces the best one only at a strictly smaller offset.
   */
  function BestAmong(p: string, words: seq<string>, n: nat): (r: Option<Hit>)
    requires n <= |words|
    ensures r.Some? ==> r.value.index < n && r.value.pos + |words[r.value.index]| <= |p|
  {
    if n == 0 then None
    else
      var prev := BestAmong(p, words, n - 1);
      match Find(p, words[n - 1])
      case None => prev
      case Some(q) =>
        if prev.None? || q < prev.value.pos then Some(Hit(q, n - 1)) else prev
  }

  /**
   * The best hit is the leftmost occurrence of any of the first `n` words,
   * ties going to the earlier word; there is none only when no word occurs.
   */
  lemma {:induction false} BestAmongLeftmost(p: string, words: seq<string>, n: nat)
    requires n <= |words|
    ensures BestAmong(p, words, n).Some? ==>
      OccursAt(p, words[BestAmong(p, words, n).value.index], BestAmong(p, words, n).value.pos)
    ensures BestAmong(p, words, n).Some? ==> NoEarlier(BestAmong(p, words, n).value, p, words, n)
    ensures BestAmong(p, words, n).None? ==> forall j, q :: 0 <= j < n ==> !OccursAt(p, words[j], q)
  {
    if n > 0 {
      BestAmongLeftmost(p, words, n - 1);
      FindFromFirst(p, words[n - 1], 0);
    }
  }

  /** The inner loop of print_highlighted over all words. */
  method FindBest(p: string, words: seq<string>) returns (best: Option<Hit>)
    ensures best == BestAmong(p, words, |words|)
  {
    best := None;
    for i := 0 to |words|
      invariant best == BestAmong(p, words, i)
    {
      var pos := Find(p, words[i]);
      if pos.Some? && (best.None? || pos.value < best.value.pos) {
        best := Some(Hit(pos.value, i));
      }
    }
  }

  // ---------------------------------------------------------------------
  // The output, piece by piece
  // ---------------------------------------------------------------------

  /**
   * How print_highlighted cuts a line: text copied verbatim up to the end,
   * or verbatim text, a highlighted word, and the layout of what follows.
   */
  datatype Layout = Tail(text: string) | Word(before: string, word: string, rest: Layout)

  /** What reaches the terminal. */
  function Render(l: Layout): string {
    match l
    case Tail(text) => text
    case Word(before, word, rest) => before + ColorOf(word) + word + Reset + Render(rest)
  }

  /** The output with the inserted colour and reset escapes deleted. */
  function Text(l: Layout): string {
    match l
    case Tail(text) => text
    case Word(before, word, rest) => before + word + Text(rest)
  }

  predicate NonEmptyWords(words: seq<string>) {
    forall i :: 0 <= i < |words| ==> |words[i]| > 0
  }

  /** The layout the while loop of print_highlighted writes for the rest `p` of the line. */
  function Split(p: string, words: seq<string>): Layout
    requires p == [] || NonEmptyWords(words)
    decreases |p|
  {
    var b := if p == [] then None else BestAmong(p, words, |words|);
    if b.None? then Tail(p)
    else
      Word(p[..b.value.pos], words[b.value.index],
        Split(p[b.value.pos + |words[b.value.index]|..], words))
  }

  /** print_highlighted: a line with no highlight words is written unchanged. */
  function Highlighted(line: string, words: seq<string>): string
    requires line == [] || NonEmptyWords(words)
  {
    if |words| == 0 then line else Render(Split(line, words))
  }

  /** print_highlighted with its cursor loop written out; `rest` is the text from `p` on. */
  method PrintHighlighted(line: string, words: seq<string>) returns (out: string)
    requires line == [] || NonEmptyWords(words)
    ensures out == Highlighted(line, words)
  {
    if |words| == 0 {
      return line;
    }
    out := [];
    var rest := line;
    while rest != []
      invariant out + Render(Split(rest, words)) == Render(Split(line, words))
      decreases |rest|
    {
      var best := FindBest(rest, words);
      if best.None? {
        SplitLast(rest, words);
        return out + rest;
      }
      var h := best.value;
      var w := words[h.index];
      ghost var out', rest' := HighlightStep(out, rest, words, h, Render(Split(line, words)));
      out := out + rest[..h.pos] + ColorOf(w) + w + Reset;
      rest := rest[h.pos + |w|..];
      assert out == out' && rest == rest';
    }
    assert out + [] == out;
  }

  // ---------------------------------------------------------------------
  // Properties of the highlighter
  // ---------------------------------------------------------------------

  /** The layout of `s` when no word occurs in it. */
  lemma SplitLast(s: string, words: seq<string>)
    requires s == [] || NonEmptyWords(words)
    requires s == [] || BestAmong(s, words, |words|).None?
    ensures Split(s, words) == Tail(s)
  {
  }

  /** The layout of `s` when the best hit is `h`. */
  lemma SplitNext(s: string, words: seq<string>, h: Hit)
    requires s != [] && NonEmptyWords(words)
    requires BestAmong(s, words, |words|) == Some(h)
    ensures h.index < |words| && h.pos + |words[h.index]| <= |s|
    ensures Split(s, words) ==
      Word(s[..h.pos], words[h.index], Split(s[h.pos + |words[h.index]|..], words))
  {
  }

  /** One round of the while loop of print_highlighted keeps its invariant. */
  lemma HighlightStep(out: string, rest: string, words: seq<string>, h: Hit, total: string)
    returns (out': string, rest': string)
    requires rest != [] && NonEmptyWords(words)
    requires BestAmong(rest, words, |words|) == Some(h)
    requires out + Render(Split(rest, words)) == total
    ensures h.index < |words| && h.pos + |words[h.index]| <= |rest|
    ensures out' == out + rest[..h.pos] + ColorOf(words[h.index]) + words[h.index] + Reset
    ensures rest' == rest[h.pos + |words[h.index]|..]
    ensures out' + Render(Split(rest', words)) == total
  {
    var w := words[h.index];
    out' := out + rest[..h.pos] + ColorOf(w) + w + Reset;
    rest' := rest[h.pos + |w|..];
    SplitNext(rest, words, h);
    AppendAssoc(out, rest[..h.pos], ColorOf(w), w, Reset, Render(Split(rest[h.pos + |w|..], words)));
  }

  lemma AppendAssoc(a: string, b: string, c: string, d: string, e: string, f: string)
    ensures a + (b + c + d + e + f) == a + b + c + d + e + f
  {
  }

  /** Deleting the inserted escapes from the output gives back the line. */
  lemma {:induction false} TextOfSplit(p: string, words: seq<string>)
    requires p == [] || NonEmptyWords(words)
    ensures Text(Split(p, words)) == p
    decreases |p|
  {
    if p != [] && BestAmong(p, words, |words|).Some? {
      var h := BestAmong(p, words, |words|).value;
      var w := words[h.index];
      SplitNext(p, words, h);
      TextOfSplit(p[h.pos + |w|..], words);
      BestAmongLeftmost(p, words, |words|);
      assert p[h.pos..h.pos + |w|] == w;
      SplitThree(p, h.pos, h.pos + |w|);
    } else {
      SplitLast(p, words);
    }
  }

  lemma SplitThree(p: string, i: nat, j: nat)
    requires i <= j <= |p|
    ensures p == p[..i] + p[i..j] + p[j..]
  {
  }

  /** A line with no highlight words is copied as it is, with or without the shortcut. */
  lemma NoWordsVerbatim(line: string)
    ensures Highlighted(line, []) == line
    ensures Render(Split(line, [])) == line
  {
    assert line != [] ==> BestAmong(line, [], 0) == None;
    SplitLast(line, []);
  }

  /**
   * The first piece: when word `j` occurs in `p` at offset `q`, no word
   * occurs earlier, and no earlier word occurs at `q` too, the text before
   * `q` is copied, word `j` is highlighted, and scanning resumes right
   * after it.
   */
  lemma LeftmostFirst(p: string, words: seq<string>, j: nat, q: nat)
    requires NonEmptyWords(words)
    requires j < |words| && OccursAt(p, words[j], q)
    requires NoEarlier(Hit(q, j), p, words, |words|)
    ensures Split(p, words) == Word(p[..q], words[j], Split(p[q + |words[j]|..], words))
  {
    var b := BestAmong(p, words, |words|);
    BestAmongLeftmost(p, words, |words|);
    assert b.Some?;
    assert b.value == Hit(q, j);
    SplitNext(p, words, b.value);
  }

  /** `w` occurring in a prefix of `p` occurs in `p`. */
  lemma OccursInPrefix(p: string, m: nat, w: string, q: int)
    requires m <= |p| && OccursAt(p[..m], w, q)
    ensures OccursAt(p, w, q) && q + |w| <= m
  {
    assert p[..m][q..q + |w|] == p[q..q + |w|];
  }

  /** No highlight word occurs anywhere in `t`. */
  ghost predicate Clean(t: string, words: seq<string>) {
    forall j, q :: 0 <= j < |words| ==> !OccursAt(t, words[j], q)
  }

  /** Every highlighted word is a highlight word, and no highlight word occurs in verbatim text. */
  ghost predicate WellCut(l: Layout, words: seq<string>) {
    match l
    case Tail(text) => Clean(text, words)
    case Word(before, word, rest) => word in words && Clean(before, words) && WellCut(rest, words)
  }

  /**
   * Every highlighted piece holds one of the highlight words, and no
   * highlight word occurs inside text copied verbatim.
   */
  lemma {:induction false} SplitWellCut(p: string, words: seq<string>)
    requires NonEmptyWords(words)
    ensures WellCut(Split(p, words), words)
    decreases |p|
  {
    BestAmongLeftmost(p, words, |words|);
    if p != [] && BestAmong(p, words, |words|).Some? {
      var h := BestAmong(p, words, |words|).value;
      var w := words[h.index];
      SplitNext(p, words, h);
      SplitWellCut(p[h.pos + |w|..], words);
      forall j, q | 0 <= j < |words|
        ensures !OccursAt(p[..h.pos], words[j], q)
      {
        if OccursAt(p[..h.pos], words[j], q) {
          OccursInPrefix(p, h.pos, words[j], q);
          assert false;
        }
      }
    } else {
      SplitLast(p, words);
      if p == [] {
        forall j, q | 0 <= j < |words|
          ensures !OccursAt(p, words[j], q)
        {
        }
      }
    }
  }
}
