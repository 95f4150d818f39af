/**
 * The include/exclude filter of logknife (should_print): a line is matched
 * with its trailing line terminators removed; when include patterns exist
 * one of them must match, and any matching exclude pattern drops the line.
 */
module Filter {
  import opened Regex

  /** The options the follow loop works with (opts_t without the CLI-only fields). */
  datatype Options = Options(includes: seq<string>, excludes: seq<string>, highlights: seq<string>)

  predicate IsEol(c: char) {
    c == '\n' || c == '\r'
  }

  /** `line` with every trailing `\n` and `\r` removed. */
  function TrimEol(line: string): (r: string)
    ensures |r| <= |line|
    decreases |line|
  {
    if |line| > 0 && IsEol(line[|line| - 1]) then TrimEol(line[..|line| - 1]) else line
  }

  /** The trimmed line is a prefix that does not end in a terminator, and only terminators were cut. */
  lemma {:induction false} TrimEolShape(line: string)
    ensures TrimEol(line) == line[..|TrimEol(line)|]
    ensures TrimEol(line) == [] || !IsEol(TrimEol(line)[|TrimEol(line)| - 1])
    ensures forall i :: |TrimEol(line)| <= i < |line| ==> IsEol(line[i])
    decreases |line|
  {
    if |line| > 0 && IsEol(line[|line| - 1]) {
      var shorter := line[..|line| - 1];
      TrimEolShape(shorter);
      assert shorter[..|TrimEol(shorter)|] == line[..|TrimEol(shorter)|];
    }
  }

  /** The decision should_print makes, stated over the pattern lists. */
  predicate Keeps(o: Options, line: string) {
    var s := TrimEol(line);
    (|o.includes| == 0 || exists i :: 0 <= i < |o.includes| && Matches(o.includes[i], s)) &&
    forall j :: 0 <= j < |o.excludes| ==> !Matches(o.excludes[j], s)
  }

  /** should_print: trims a copy of the line, then scans the includes and the excludes. */
  method ShouldPrint(o: Options, line: string) returns (keep: bool)
    ensures keep == Keeps(o, line)
  {
    var n := |line|;
    assert line[..n] == line;
    while n > 0 && IsEol(line[n - 1])
      invariant 0 <= n <= |line|
      invariant TrimEol(line[..n]) == TrimEol(line)
      decreases n
    {
      assert line[..n][..n - 1] == line[..n - 1];
      n := n - 1;
    }
    var tmp := line[..n];
    assert tmp == TrimEol(line);

    if |o.includes| > 0 {
      var ok := false;
      var i := 0;
      while i < |o.includes|
        invariant 0 <= i <= |o.includes|
        invariant !ok && forall j :: 0 <= j < i ==> !Matches(o.includes[j], tmp)
      {
        var m := MatchRe(o.includes[i], tmp);
        if m {
          ok := true;
          break;
        }
        i := i + 1;
      }
      if !ok {
        return false;
      }
    }

    for i := 0 to |o.excludes|
      invariant forall j :: 0 <= j < i ==> !Matches(o.excludes[j], tmp)
    {
      var m := MatchRe(o.excludes[i], tmp);
      if m {
        return false;
      }
    }
    return true;
  }

  /** A trimmed line is the longest prefix that does not end in a terminator. */
  lemma {:induction false} TrimEolUnique(line: string, r: string)
    requires r <= line
    requires r == [] || !IsEol(r[|r| - 1])
    requires forall i :: |r| <= i < |line| ==> IsEol(line[i])
    ensures r == TrimEol(line)
  {
    var t := TrimEol(line);
    TrimEolShape(line);
    assert |r| == |t| by {
      if |r| < |t| {
        assert false;
      } else if |t| < |r| {
        assert false;
      }
    }
  }

  /** Adding line terminators does not change the decision. */
  lemma TerminatorsIgnored(o: Options, line: string, c: char)
    requires IsEol(c)
    ensures Keeps(o, line + [c]) == Keeps(o, line)
  {
    assert (line + [c])[..|line + [c]| - 1] == line;
  }

  /** An exclude match drops the line, even when an include matches too. */
  lemma ExcludeWins(o: Options, line: string, j: nat)
    requires j < |o.excludes| && Matches(o.excludes[j], TrimEol(line))
    ensures !Keeps(o, line)
  {
  }

  /** With no include and no exclude patterns every line is kept. */
  lemma NoPatternsKeepAll(o: Options, line: string)
    requires o.includes == [] && o.excludes == []
    ensures Keeps(o, line)
  {
  }

  /** With includes present, a line no include matches is dropped. */
  lemma IncludeRequired(o: Options, line: string)
    requires |o.includes| > 0
    requires forall i :: 0 <= i < |o.includes| ==> !Matches(o.includes[i], TrimEol(line))
    ensures !Keeps(o, line)
  {
  }
}
