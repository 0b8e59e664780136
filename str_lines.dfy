/**
 * Line handling of Rust string slices, as `add_alerts` uses it:
 *  - `Lines` is `str::lines`: the text is cut at every line feed, a carriage
 *    return directly before a line feed belongs to the line ending, and the
 *    line ending of the final line is optional;
 *  - `Split` is `str::split('\n')`: every line feed separates two pieces,
 *    so there is always one piece more than there are line feeds;
 *  - `Join` is `[&str]::join(sep)`: the pieces with `sep` between them and
 *    nothing after the last one.
 */
module StrLines {

  const LF: char := '\n'
  const CR: char := '\r'

  /** Index of the first line feed of `s`, or `|s|` when there is none. */
  function FindNewline(s: string): (i: nat)
    ensures i <= |s|
    ensures i < |s| ==> s[i] == LF
  {
    if s == [] then 0
    else if s[0] == LF then 0
    else 1 + FindNewline(s[1..])
  }

  /** `line` without one carriage return at its end, if it has one. */
  function StripCR(line: string): (r: string)
    ensures |line| > 0 && line[|line| - 1] == CR ==> line == r + [CR]
    ensures !(|line| > 0 && line[|line| - 1] == CR) ==> r == line
  {
    if |line| > 0 && line[|line| - 1] == CR then line[..|line| - 1] else line
  }

  /** True when `s` has a carriage return at `j` and a line feed right after it. */
  predicate CRLFAt(s: string, j: int)
  {
    0 <= j < |s| - 1 && s[j] == CR && s[j + 1] == LF
  }

  /** True when `s` contains a carriage return directly followed by a line feed. */
  predicate HasCRLF(s: string)
  {
    exists j | 0 <= j < |s| - 1 :: CRLFAt(s, j)
  }

  predicate EndsWithLF(s: string)
  {
    |s| > 0 && s[|s| - 1] == LF
  }

  /** The pieces of `s` between its line feeds (Rust `s.split('\n')`). */
  function Split(s: string): (parts: seq<string>)
    ensures |parts| >= 1
    decreases |s|
  {
    var i := FindNewline(s);
    if i == |s| then [s] else [s[..i]] + Split(s[i + 1..])
  }

  /** The lines of `s` (Rust `s.lines()`). */
  function Lines(s: string): (ls: seq<string>)
    ensures (ls == []) == (s == [])
    decreases |s|
  {
    if s == [] then []
    else
      var i := FindNewline(s);
      if i == |s| then [s] else [StripCR(s[..i])] + Lines(s[i + 1..])
  }

  /** `parts` with `sep` between consecutive elements (Rust `parts.join(sep)`). */
  function Join(parts: seq<string>, sep: string): string
  {
    if |parts| == 0 then []
    else if |parts| == 1 then parts[0]
    else parts[0] + sep + Join(parts[1..], sep)
  }

  /** Every line of `ls` followed by `term`: a document whose lines all end with `term`. */
  function Terminated(ls: seq<string>, term: string): string
  {
    if ls == [] then [] else ls[0] + term + Terminated(ls[1..], term)
  }

  /**
   * Reference reading of `lines()` in terms of the pieces of `split('\n')`:
   * every piece that was followed by a line feed loses one trailing carriage
   * return, and the last piece (the text after the last line feed) is a line
   * only when it is not empty.
   */
  function FromPieces(pieces: seq<string>): seq<string>
    requires |pieces| >= 1
  {
    if |pieces| == 1 then (if pieces[0] == [] then [] else pieces)
    else [StripCR(pieces[0])] + FromPieces(pieces[1..])
  }

  predicate NoLF(ls: seq<string>)
  {
    forall k :: 0 <= k < |ls| ==> LF !in ls[k]
  }

  /**
   * Lines as `lines()` can return them once they are joined with line feeds:
   * no line feeds, no `\r` at the end of a line that a line feed follows, and
   * a last line that is not empty (it may end with `\r`).
   */
  predicate JoinableLines(ls: seq<string>)
  {
    && NoLF(ls)
    && (forall k :: 0 <= k < |ls| - 1 ==> StripCR(ls[k]) == ls[k])
    && (ls != [] ==> ls[|ls| - 1] != [])
  }

  /** No line feed comes before the one `FindNewline` finds. */
  lemma {:induction false} FindNewlineFirst(s: string)
    ensures LF !in s[..FindNewline(s)]
  {
    if s != [] && s[0] != LF {
      FindNewlineFirst(s[1..]);
      assert s[..FindNewline(s)] == [s[0]] + s[1..][..FindNewline(s[1..])];
    }
  }

  lemma FindNewlineNone(s: string)
    requires LF !in s
    ensures FindNewline(s) == |s|
  {
  }

  lemma {:induction false} FindNewlineAppend(a: string, t: string)
    ensures FindNewline(a + t) == if FindNewline(a) < |a| then FindNewline(a) else |a| + FindNewline(t)
  {
    if a == [] {
      assert a + t == t;
    } else {
      assert (a + t)[0] == a[0];
      if a[0] != LF {
        assert (a + t)[1..] == a[1..] + t;
        FindNewlineAppend(a[1..], t);
      }
    }
  }

  lemma SeqCut<T>(s: seq<T>, i: nat)
    requires i < |s|
    ensures s == s[..i] + [s[i]] + s[i + 1..]
  {
  }

  lemma Regroup<T>(a: seq<T>, b: seq<T>, c: seq<T>)
    ensures a + b + c == a + (b + c)
  {
  }

  lemma SliceMiddle<T>(x: seq<T>, y: seq<T>, z: seq<T>)
    ensures (x + y + z)[|x|..|x| + |y|] == y
  {
  }

  lemma CutAtFirstNewline(s: string)
    requires FindNewline(s) < |s|
    ensures s == s[..FindNewline(s)] + [LF] + s[FindNewline(s) + 1..]
    ensures LF !in s[..FindNewline(s)]
  {
    SeqCut(s, FindNewline(s));
    FindNewlineFirst(s);
  }

  lemma NoLFTail(ls: seq<string>)
    requires ls != [] && NoLF(ls)
    ensures NoLF(ls[1..])
  {
  }

  lemma SplitNoNewline(s: string)
    requires LF !in s
    ensures Split(s) == [s]
  {
  }

  lemma SplitCons(a: string, rest: string)
    requires LF !in a
    ensures Split(a + [LF] + rest) == [a] + Split(rest)
  {
    var t := [LF] + rest;
    var s := a + [LF] + rest;
    assert s == a + t;
    FindNewlineNone(a);
    FindNewlineAppend(a, t);
    assert FindNewline(s) == |a|;
    assert s[..|a|] == a;
    assert s[|a| + 1..] == rest;
    assert Split(s) == [s[..|a|]] + Split(s[|a| + 1..]);
  }

  /** A line ending after a first line `a` without line feeds. */
  lemma LinesCons(a: string, rest: string)
    requires LF !in a
    ensures Lines(a + [LF] + rest) == [StripCR(a)] + Lines(rest)
  {
    var t := [LF] + rest;
    var s := a + [LF] + rest;
    assert s == a + t;
    FindNewlineNone(a);
    FindNewlineAppend(a, t);
    assert FindNewline(s) == |a|;
    assert s[..|a|] == a;
    assert s[|a| + 1..] == rest;
    assert Lines(s) == [StripCR(s[..|a|])] + Lines(s[|a| + 1..]);
  }

  lemma RegroupLF(p: string, q: string, r: string)
    ensures p + [LF] + q + [LF] + r == p + [LF] + (q + [LF] + r)
  {
  }

  lemma JoinCons(first: string, more: seq<string>)
    requires more != []
    ensures Join([first] + more, [LF]) == first + [LF] + Join(more, [LF])
  {
  }

  lemma NoNewlineAt(a: string)
    requires FindNewline(a) == |a|
    ensures LF !in a
  {
  }

  /** The inductive step of `SplitAppend`: one more line in front of `a`. */
  lemma SplitAppendStep(line: string, more: string, b: string)
    requires LF !in line
    requires Split(more + [LF] + b) == Split(more) + Split(b)
    ensures Split(line + [LF] + more + [LF] + b) == Split(line + [LF] + more) + Split(b)
  {
    RegroupLF(line, more, b);
    SplitCons(line, more + [LF] + b);
    SplitCons(line, more);
    Regroup([line], Split(more), Split(b));
  }

  /** A line feed between `a` and `b` separates their pieces. */
  lemma {:induction false} SplitAppend(a: string, b: string)
    ensures Split(a + [LF] + b) == Split(a) + Split(b)
    decreases |a|
  {
    var i := FindNewline(a);
    if i == |a| {
      NoNewlineAt(a);
      SplitNoNewline(a);
      SplitCons(a, b);
    } else {
      CutAtFirstNewline(a);
      SplitAppend(a[i + 1..], b);
      SplitAppendStep(a[..i], a[i + 1..], b);
    }
  }

  /** No piece of `split('\n')` contains a line feed. */
  lemma {:induction false} SplitNoLF(s: string)
    ensures NoLF(Split(s))
    decreases |s|
  {
    var i := FindNewline(s);
    if i < |s| {
      CutAtFirstNewline(s);
      SplitCons(s[..i], s[i + 1..]);
      SplitNoLF(s[i + 1..]);
    } else {
      FindNewlineFirst(s);
      assert s[..i] == s;
      SplitNoNewline(s);
    }
  }

  /** No line of `lines()` contains a line feed. */
  lemma {:induction false} LinesNoLF(s: string)
    ensures NoLF(Lines(s))
    decreases |s|
  {
    var i := FindNewline(s);
    if i < |s| {
      var line := s[..i];
      CutAtFirstNewline(s);
      LinesCons(line, s[i + 1..]);
      LinesNoLF(s[i + 1..]);
      assert StripCR(line) == line || StripCR(line) + [CR] == line;
      assert LF !in StripCR(line);
    } else if s != [] {
      FindNewlineFirst(s);
      assert s[..i] == s;
    }
  }

  /** `split('\n')` undoes `join("\n")` on lines without line feeds. */
  lemma {:induction false} SplitOfJoin(ls: seq<string>)
    requires ls != [] && NoLF(ls)
    ensures Split(Join(ls, [LF])) == ls
  {
    assert LF !in ls[0];
    if |ls| == 1 {
      SplitNoNewline(ls[0]);
    } else {
      assert ls == [ls[0]] + ls[1..];
      JoinCons(ls[0], ls[1..]);
      SplitCons(ls[0], Join(ls[1..], [LF]));
      NoLFTail(ls);
      SplitOfJoin(ls[1..]);
    }
  }

  /** `join("\n")` undoes `split('\n')`. */
  lemma {:induction false} JoinOfSplit(s: string)
    ensures Join(Split(s), [LF]) == s
    decreases |s|
  {
    var i := FindNewline(s);
    if i < |s| {
      var line, rest := s[..i], s[i + 1..];
      CutAtFirstNewline(s);
      SplitCons(line, rest);
      JoinCons(line, Split(rest));
      JoinOfSplit(rest);
    }
  }

  /** `lines()` agrees with its reference reading through `split('\n')`. */
  lemma {:induction false} LinesFromPieces(s: string)
    ensures Lines(s) == FromPieces(Split(s))
    decreases |s|
  {
    var i := FindNewline(s);
    if i < |s| {
      var line, rest := s[..i], s[i + 1..];
      CutAtFirstNewline(s);
      SplitCons(line, rest);
      LinesCons(line, rest);
      LinesFromPieces(rest);
      assert ([line] + Split(rest))[1..] == Split(rest);
    }
  }

  /** A final line ending is optional: `lines()` ignores an empty last piece. */
  lemma {:induction false} LinesOfJoin(ls: seq<string>)
    requires JoinableLines(ls)
    ensures Lines(Join(ls, [LF])) == ls
  {
    if |ls| == 1 {
      FindNewlineNone(ls[0]);
    } else if |ls| > 1 {
      assert LF !in ls[0] && StripCR(ls[0]) == ls[0];
      assert ls == [ls[0]] + ls[1..];
      JoinCons(ls[0], ls[1..]);
      LinesCons(ls[0], Join(ls[1..], [LF]));
      JoinableTail(ls);
      LinesOfJoin(ls[1..]);
    }
  }

  lemma JoinableTail(ls: seq<string>)
    requires |ls| > 1 && JoinableLines(ls)
    ensures JoinableLines(ls[1..])
  {
  }

  /**
   * Joining the lines of a text with line feeds gives the text back exactly
   * when it uses bare line feeds and has no final line ending.
   */
  lemma {:induction false} JoinOfLines(s: string)
    requires !HasCRLF(s) && !EndsWithLF(s)
    ensures Join(Lines(s), [LF]) == s
    decreases |s|
  {
    var i := FindNewline(s);
    if i < |s| {
      var line, rest := s[..i], s[i + 1..];
      CutAtFirstNewline(s);
      LinesCons(line, rest);
      NoCRBeforeLF(s, i);
      assert rest != [] by {
        assert s[|s| - 1] != LF;
      }
      NoCRLFSuffix(s, i + 1);
      JoinOfLines(rest);
      JoinCons(line, Lines(rest));
    }
  }

  lemma NoCRLFSuffix(s: string, n: nat)
    requires !HasCRLF(s) && n <= |s|
    ensures !HasCRLF(s[n..])
  {
    var rest := s[n..];
    forall j | 0 <= j < |rest| - 1 ensures !CRLFAt(rest, j) {
      assert !CRLFAt(s, n + j);
      assert rest[j] == s[n + j] && rest[j + 1] == s[n + j + 1];
    }
  }

  /** Without CR LF in `s`, the text before a line feed does not end with a carriage return. */
  lemma NoCRBeforeLF(s: string, i: nat)
    requires !HasCRLF(s) && i < |s| && s[i] == LF
    ensures StripCR(s[..i]) == s[..i]
  {
    assert i > 0 ==> !CRLFAt(s, i - 1);
  }

  /** A document whose every line ends with CR LF is cut back into exactly those lines. */
  lemma {:induction false} LinesOfCRLF(ls: seq<string>)
    requires NoLF(ls)
    ensures Lines(Terminated(ls, [CR, LF])) == ls
  {
    if ls != [] {
      var rest := Terminated(ls[1..], [CR, LF]);
      var first := ls[0] + [CR];
      assert LF !in ls[0];
      assert LF !in first;
      assert Terminated(ls, [CR, LF]) == first + [LF] + rest;
      LinesCons(first, rest);
      assert first[..|first| - 1] == ls[0];
      NoLFTail(ls);
      LinesOfCRLF(ls[1..]);
    }
  }
}
