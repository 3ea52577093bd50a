/** Splitting and joining text: `str.splitlines`, `"\n".join`, and splitting a list at commas. */
module Lines {
  import opened Sequences
  import opened Text

  predicate BreakFree(s: string) {
    forall c :: c in s ==> !IsLineBreak(c)
  }

  function FirstBreak(s: string): (k: nat)
    ensures k <= |s| && forall i :: 0 <= i < k ==> !IsLineBreak(s[i])
    ensures k < |s| ==> IsLineBreak(s[k])
  {
    Find(s, 0, IsLineBreak)
  }

  /** `str.splitlines`: no empty line after a final line break; carriage return plus line feed is one break. */
  function SplitLines(s: string): seq<string>
    decreases |s|
  {
    if s == [] then []
    else
      var k := FirstBreak(s);
      if k == |s| then [s]
      else [s[..k]] + SplitLines(s[if k + 1 < |s| && s[k] == '\r' && s[k + 1] == '\n' then k + 2 else k + 1..])
  }

  /** `"\n".join`. */
  function Join(lines: seq<string>): string {
    if lines == [] then []
    else if |lines| == 1 then lines[0]
    else lines[0] + "\n" + Join(lines[1..])
  }

  /** Every line followed by a line feed. */
  function Terminated(lines: seq<string>): string {
    if lines == [] then [] else lines[0] + "\n" + Terminated(lines[1..])
  }

  lemma FirstBreakUnique(line: string, rest: string)
    requires BreakFree(line)
    ensures FirstBreak(line + "\n" + rest) == |line|
    decreases |line|
  {
    var s := line + "\n" + rest;
    assert s[|line|] == '\n';
    assert forall i :: 0 <= i < |line| ==> s[i] == line[i] && line[i] in line;
  }

  lemma SplitFirstLine(line: string, rest: string)
    requires BreakFree(line)
    ensures SplitLines(line + "\n" + rest) == [line] + SplitLines(rest)
  {
    var s := line + "\n" + rest;
    FirstBreakUnique(line, rest);
    assert s[|line|] == '\n';
    assert s[..|line|] == line && s[|line| + 1..] == rest;
  }

  lemma {:induction false} SplitTerminated(lines: seq<string>, rest: string)
    requires forall l :: l in lines ==> BreakFree(l)
    ensures SplitLines(Terminated(lines) + rest) == lines + SplitLines(rest)
  {
    if lines == [] {
      assert Terminated(lines) + rest == rest;
    } else {
      SplitTerminated(lines[1..], rest);
      SplitFirstLine(lines[0], Terminated(lines[1..]) + rest);
      ConcatAssoc(lines[0] + "\n", Terminated(lines[1..]), rest);
      ConcatAssoc([lines[0]], lines[1..], SplitLines(rest));
      assert lines == [lines[0]] + lines[1..];
    }
  }

  lemma {:induction false} JoinConcat(a: seq<string>, b: seq<string>)
    requires b != []
    ensures Join(a + b) == Terminated(a) + Join(b)
  {
    if a == [] {
      assert a + b == b;
      assert Terminated(a) + Join(b) == Join(b);
    } else {
      var rest := a[1..] + b;
      JoinConcat(a[1..], b);
      assert (a + b)[0] == a[0] && (a + b)[1..] == rest;
      ConcatAssoc(a[0] + "\n", Terminated(a[1..]), Join(b));
    }
  }

  /** The only line breaks are line feeds. */
  predicate LineFeedsOnly(s: string) {
    forall c :: c in s && IsLineBreak(c) ==> c == '\n'
  }

  lemma BreaksApart(b: string, k: nat)
    requires k < |b| && b[k] == '\n'
    ensures b == b[..k] + "\n" + b[k + 1..]
    ensures b + "\n" == b[..k] + "\n" + (b[k + 1..] + "\n")
    ensures forall c :: c in b[k + 1..] ==> c in b
  {
  }

  /** Splitting a text that ends in a line feed and joining the lines gives the text without it. */
  lemma {:induction false} JoinSplit(b: string)
    requires LineFeedsOnly(b)
    ensures SplitLines(b + "\n") != [] && Join(SplitLines(b + "\n")) == b
    decreases |b|
  {
    var k := FirstBreak(b);
    if k == |b| {
      SplitFirstLine(b, []);
      assert b + "\n" + [] == b + "\n";
    } else {
      assert b[k] in b;
      var rest := b[k + 1..];
      BreaksApart(b, k);
      JoinSplit(rest);
      SplitFirstLine(b[..k], rest + "\n");
      JoinConcat([b[..k]], SplitLines(rest + "\n"));
      TerminatedOne(b[..k]);
    }
  }

  lemma {:induction false} LinesAreBreakFree(s: string)
    ensures forall l :: l in SplitLines(s) ==> BreakFree(l)
    decreases |s|
  {
    var k := FirstBreak(s);
    assert BreakFree(s[..k]);
    if k < |s| {
      var rest := s[if k + 1 < |s| && s[k] == '\r' && s[k + 1] == '\n' then k + 2 else k + 1..];
      LinesAreBreakFree(rest);
      assert SplitLines(s) == [s[..k]] + SplitLines(rest);
    }
  }

  lemma {:induction false} JoinedByLineFeeds(lines: seq<string>)
    requires forall l :: l in lines ==> BreakFree(l)
    ensures LineFeedsOnly(Join(lines))
  {
    if |lines| == 1 {
      assert BreakFree(lines[0]);
    } else if lines != [] {
      var first, rest := lines[0], Join(lines[1..]);
      JoinedByLineFeeds(lines[1..]);
      assert BreakFree(first);
      assert forall c :: c in first + "\n" + rest ==> c in first || c == '\n' || c in rest;
    }
  }

  /** Splitting and joining leaves no line break but line feeds, so that it is the identity on such texts only. */
  lemma JoinSplitIff(b: string)
    ensures SplitLines(b + "\n") != []
    ensures LineFeedsOnly(Join(SplitLines(b + "\n")))
    ensures Join(SplitLines(b + "\n")) == b <==> LineFeedsOnly(b)
  {
    LinesAreBreakFree(b + "\n");
    JoinedByLineFeeds(SplitLines(b + "\n"));
    if LineFeedsOnly(b) {
      JoinSplit(b);
    }
  }

  lemma TerminatedOne(line: string)
    ensures Terminated([line]) == line + "\n"
  {
    assert [line][1..] == [];
  }

  // ---------------------------------------------------------------------------
  // Commas
  // ---------------------------------------------------------------------------

  predicate IsComma(c: char) {
    c == ','
  }

  function FirstComma(s: string): (k: nat)
    ensures k <= |s| && forall i :: 0 <= i < k ==> s[i] != ','
    ensures k < |s| ==> s[k] == ','
  {
    Find(s, 0, IsComma)
  }

  /** `str.split(",")`. */
  function CommaParts(s: string): seq<string>
    decreases |s|
  {
    var k := FirstComma(s);
    if k == |s| then [s] else [s[..k]] + CommaParts(s[k + 1..])
  }

  lemma FirstCommaUnique(part: string, rest: string)
    requires ',' !in part
    ensures FirstComma(part + "," + rest) == |part|
  {
    var s := part + "," + rest;
    assert s[|part|] == ',';
    assert forall i :: 0 <= i < |part| ==> s[i] == part[i] && part[i] in part;
  }

  lemma SplitFirstPart(part: string, rest: string)
    requires ',' !in part
    ensures CommaParts(part + "," + rest) == [part] + CommaParts(rest)
  {
    var s := part + "," + rest;
    FirstCommaUnique(part, rest);
    assert s[..|part|] == part && s[|part| + 1..] == rest;
  }

  lemma LastPart(part: string)
    requires ',' !in part
    ensures CommaParts(part) == [part]
  {
    assert forall i :: 0 <= i < |part| ==> part[i] in part;
  }
}
