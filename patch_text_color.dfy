/** The OnSong colour-marker rewriter of `PatchTextColor.PatchColors`.

    Every line that contains the OnSong marker `&blue` is a marker line. Each
    maximal run of marker lines is wrapped in ChordPro colour directives, an
    opening `{textcolour: blue}` before its first line and a closing
    `{textcolour}` after its last, and the marker text is removed from the lines
    inside the run. File discovery and file I/O are not part of this model: a
    file is the sequence of its lines (as `readlines` returns them) and the result
    is the sequence of strings written back. */
module PatchTextColor {
  import opened Wrappers
  import opened Strings
  import opened Seqs
  import opened LinePass

  const Blue: string := "&blue"
  const OpenTag: string := "{textcolour: blue}\n"
  const CloseTag: string := "{textcolour}\n"

  // ---------------------------------------------------------------------------
  // The marker test: `re.compile(r"&blue:?").search(line)`
  // ---------------------------------------------------------------------------

  /** The five characters of `&blue` start at position `i` of `s`. */
  predicate BlueAt(s: string, i: nat)
  {
    i + 5 <= |s| && s[i] == '&' && s[i + 1] == 'b' && s[i + 2] == 'l' && s[i + 3] == 'u' && s[i + 4] == 'e'
  }

  lemma BlueAtIff(s: string, i: nat)
    requires i <= |s|
    ensures BlueAt(s, i) <==> StartsWith(s[i..], Blue)
  {
    if StartsWith(s[i..], Blue) {
      assert s[i..][..5] == Blue;
      assert s[i] == Blue[0] && s[i + 1] == Blue[1] && s[i + 2] == Blue[2] && s[i + 3] == Blue[3] && s[i + 4] == Blue[4];
    }
    if BlueAt(s, i) {
      assert s[i..][..5] == Blue;
    }
  }

  /** `onsongColor.search(line)` succeeds: `&blue:?` matches at some position. The
      colon is optional, so it matches at a position exactly when `&blue` starts there. */
  predicate IsMarkerLine(line: string)
    decreases |line|
  {
    StartsWith(line, Blue) || (line != [] && IsMarkerLine(line[1..]))
  }

  /** Because the colon is optional, a line is a marker line exactly when it contains `&blue`. */
  lemma {:induction false} MarkerLineIffContainsBlue(line: string)
    ensures IsMarkerLine(line) <==> Contains(line, Blue)
    decreases |line|
  {
    ContainsUnfold(line, Blue);
    if line != [] {
      MarkerLineIffContainsBlue(line[1..]);
    }
  }

  // ---------------------------------------------------------------------------
  // The strip step: `re.sub(".?&blue:?/? *", "", line)`
  // ---------------------------------------------------------------------------

  /** Length of the run of spaces at the start of `s` (` *`, greedy). */
  function SpaceRun(s: string): (n: nat)
    ensures n <= |s|
    ensures forall k | 0 <= k < n :: s[k] == ' '
    ensures n < |s| ==> s[n] != ' '
  {
    if s != [] && s[0] == ' ' then 1 + SpaceRun(s[1..]) else 0
  }

  /** Length matched by `:?/? *` at the start of `s`: each optional part greedily. */
  function TailLen(s: string): (n: nat)
    ensures n <= |s|
    ensures forall k | 0 <= k < n :: s[k] == ':' || s[k] == '/' || s[k] == ' '
  {
    var c := if |s| > 0 && s[0] == ':' then 1 else 0;
    var d := if |s| > c && s[c] == '/' then 1 else 0;
    c + d + SpaceRun(s[c + d..])
  }

  /** The match of `.?&blue:?/? *` at the start of `s` as Python's backtracking
      matcher finds it: `.?` first tries to take one character other than a
      newline, and only when `&blue` does not follow does it take nothing.
      A match never covers a newline. */
  function MarkerMatch(s: string): (r: Option<nat>)
    ensures r.Some? ==> 5 <= r.value <= |s|
    ensures r.Some? ==> forall k | 0 <= k < r.value :: s[k] != '\n'
  {
    if |s| > 0 && s[0] != '\n' && BlueAt(s, 1) then Some(6 + TailLen(s[6..]))
    else if BlueAt(s, 0) then Some(5 + TailLen(s[5..]))
    else None
  }

  /** `re.sub(".?&blue:?/? *", "", s)`: scanning from the left, each leftmost
      match is removed and the scan resumes after it. */
  function Strip(s: string): (r: string)
    ensures |r| <= |s|
    ensures s != [] && s[|s| - 1] == '\n' ==> r != [] && r[|r| - 1] == '\n'
    decreases |s|
  {
    if s == [] then []
    else match MarkerMatch(s)
      case Some(n) => Strip(s[n..])
      case None => [s[0]] + Strip(s[1..])
  }

  /** `u` is in the language of `:?/? *`. */
  predicate InTail(u: string)
  {
    AllSpaces(u)
    || (|u| >= 1 && (u[0] == ':' || u[0] == '/') && AllSpaces(u[1..]))
    || (|u| >= 2 && u[0] == ':' && u[1] == '/' && AllSpaces(u[2..]))
  }

  predicate AllSpaces(u: string)
  {
    forall k | 0 <= k < |u| :: u[k] == ' '
  }

  /** `t` is in the language of the regular expression `.?&blue:?/? *`. */
  predicate InMarkerPattern(t: string)
  {
    (StartsWith(t, Blue) && InTail(t[5..]))
    || (|t| >= 6 && t[0] != '\n' && StartsWith(t[1..], Blue) && InTail(t[6..]))
  }

  lemma {:induction false} SpaceRunLongest(u: string, m: nat)
    requires m <= |u| && AllSpaces(u[..m])
    ensures m <= SpaceRun(u)
  {
    if m > 0 {
      assert u[..m][0] == u[0];
      var v := u[1..][..m - 1];
      assert AllSpaces(v) by {
        forall k | 0 <= k < |v| ensures v[k] == ' ' {
          assert v[k] == u[..m][k + 1];
        }
      }
      SpaceRunLongest(u[1..], m - 1);
    }
  }

  /** What TailLen takes is in the language of `:?/? *`. */
  lemma TailLenInTail(u: string)
    ensures InTail(u[..TailLen(u)])
  {
    var c := if |u| > 0 && u[0] == ':' then 1 else 0;
    var d := if |u| > c && u[c] == '/' then 1 else 0;
    var n := TailLen(u);
    var v := u[..n][c + d..];
    assert AllSpaces(v) by {
      forall k | 0 <= k < |v| ensures v[k] == ' ' {
        assert v[k] == u[c + d..][k];
      }
    }
    if c == 1 && d == 1 {
      assert u[..n][0] == ':' && u[..n][1] == '/';
    } else if c + d == 1 {
      assert u[..n][0] == u[0];
    }
  }

  /** No longer prefix of `u` is in the language of `:?/? *`. */
  lemma TailLenLongest(u: string, m: nat)
    requires m <= |u| && InTail(u[..m])
    ensures m <= TailLen(u)
  {
    var c := if |u| > 0 && u[0] == ':' then 1 else 0;
    var d := if |u| > c && u[c] == '/' then 1 else 0;
    var t := u[..m];
    if AllSpaces(t) {
      if m > 0 {
        assert t[0] == u[0];
        assert t == u[c + d..][..m];
        SpaceRunLongest(u[c + d..], m);
      }
    } else if |t| >= 2 && t[0] == ':' && t[1] == '/' && AllSpaces(t[2..]) {
      assert t[0] == u[0] && t[1] == u[1];
      assert t[2..] == u[2..][..m - 2];
      SpaceRunLongest(u[2..], m - 2);
    } else {
      assert t[0] == u[0];
      if t[0] == ':' && d == 1 {
        // `:/` cannot be read as `:` followed by spaces, so here m is at most 1
      } else {
        assert c + d == 1;
        assert t[1..] == u[1..][..m - 1];
        SpaceRunLongest(u[1..], m - 1);
      }
    }
  }

  /** What MarkerMatch takes is in the language of `.?&blue:?/? *`. */
  lemma MarkerMatchInPattern(s: string)
    requires MarkerMatch(s).Some?
    ensures InMarkerPattern(s[..MarkerMatch(s).value])
  {
    if |s| > 0 && s[0] != '\n' && BlueAt(s, 1) {
      var u := s[6..];
      TailLenInTail(u);
      var n := 6 + TailLen(u);
      var t := s[..n];
      assert BlueAt(t, 1);
      BlueAtIff(t, 1);
      assert t[6..] == u[..TailLen(u)];
    } else {
      var u := s[5..];
      TailLenInTail(u);
      var n := 5 + TailLen(u);
      var t := s[..n];
      assert BlueAt(t, 0);
      BlueAtIff(t, 0);
      assert t[0..] == t;
      assert t[5..] == u[..TailLen(u)];
    }
  }

  /** No prefix longer than what MarkerMatch takes is in the language, and no prefix
      at all when MarkerMatch finds nothing. */
  lemma MarkerMatchMaximal(s: string, m: nat)
    requires m <= |s| && InMarkerPattern(s[..m])
    ensures MarkerMatch(s).Some? && m <= MarkerMatch(s).value
  {
    var t := s[..m];
    if StartsWith(t, Blue) && InTail(t[5..]) {
      assert t[0..] == t;
      BlueAtIff(t, 0);
      assert BlueAt(s, 0) && !BlueAt(s, 1);
      assert t[5..] == s[5..][..m - 5];
      TailLenLongest(s[5..], m - 5);
    } else {
      BlueAtIff(t, 1);
      assert BlueAt(s, 1);
      assert t[6..] == s[6..][..m - 6];
      TailLenLongest(s[6..], m - 6);
    }
  }

  /** The match Python finds at the start of `s` is the longest prefix of `s` in the
      language of `.?&blue:?/? *`, and there is no match exactly when no prefix is in it. */
  lemma MarkerMatchLongest(s: string)
    ensures MarkerMatch(s).Some? ==> InMarkerPattern(s[..MarkerMatch(s).value])
    ensures forall m | 0 <= m <= |s| && InMarkerPattern(s[..m]) ::
              MarkerMatch(s).Some? && m <= MarkerMatch(s).value
  {
    if MarkerMatch(s).Some? {
      MarkerMatchInPattern(s);
    }
    forall m | 0 <= m <= |s| && InMarkerPattern(s[..m])
      ensures MarkerMatch(s).Some? && m <= MarkerMatch(s).value
    {
      MarkerMatchMaximal(s, m);
    }
  }

  /** Without `&blue` nothing matches, so Strip returns its argument. */
  lemma {:induction false} StripUnmarked(s: string)
    requires !Contains(s, Blue)
    ensures Strip(s) == s
    decreases |s|
  {
    if s != [] {
      ContainsUnfold(s, Blue);
      ContainsUnfold(s[1..], Blue);
      BlueAtIff(s, 0);
      BlueAtIff(s, 1);
      assert s[0..] == s;
      assert MarkerMatch(s) == None;
      StripUnmarked(s[1..]);
      assert [s[0]] + s[1..] == s;
    }
  }

  /** With `&blue` some match is removed, so Strip shortens its argument. */
  lemma {:induction false} StripMarkedShortens(s: string)
    requires Contains(s, Blue)
    ensures |Strip(s)| < |s|
    decreases |s|
  {
    ContainsUnfold(s, Blue);
    BlueAtIff(s, 0);
    assert s[0..] == s;
    match MarkerMatch(s)
    case Some(n) =>
      assert Strip(s) == Strip(s[n..]);
    case None =>
      assert !StartsWith(s, Blue);
      StripMarkedShortens(s[1..]);
      assert Strip(s) == [s[0]] + Strip(s[1..]);
  }

  /** Strip changes a string exactly when it contains `&blue`. */
  lemma StripChangesExactlyMarked(s: string)
    ensures Strip(s) == s <==> !Contains(s, Blue)
  {
    if Contains(s, Blue) {
      StripMarkedShortens(s);
    } else {
      StripUnmarked(s);
    }
  }

  // ---------------------------------------------------------------------------
  // The line pass (lines 19-36)
  // ---------------------------------------------------------------------------

  /** The marker test and the strip step of `PatchColors`. */
  const Onsong: Marker := Marker(IsMarkerLine, Strip)

  function Render(e: Emit): string
  {
    match e
    case Open => OpenTag
    case Close => CloseTag
    case Text(line) => line
  }

  function RenderAll(es: seq<Emit>): seq<string>
  {
    seq(|es|, k requires 0 <= k < |es| => Render(es[k]))
  }

  lemma RenderAllAppend(a: seq<Emit>, b: seq<Emit>)
    ensures RenderAll(a + b) == RenderAll(a) + RenderAll(b)
  {
  }

  /** The strings written back to a file whose lines were `lines`. */
  function Patch(lines: seq<string>): seq<string>
  {
    RenderAll(Pass(lines, false, Onsong))
  }

  /** The output has two more entries than the input for each run of marker lines. */
  lemma PatchLength(lines: seq<string>)
    ensures |Patch(lines)| == |lines| + 2 * RunCount(lines, Onsong)
  {
    PassLength(lines, Onsong);
  }

  /** An input in which no line contains `&blue` is written back exactly. */
  lemma UnmarkedInputUnchanged(lines: seq<string>)
    requires forall k | 0 <= k < |lines| :: !Contains(lines[k], Blue)
    ensures Patch(lines) == lines
  {
    forall k | 0 <= k < |lines| ensures !Onsong.found(lines[k]) {
      MarkerLineIffContainsBlue(lines[k]);
    }
    PassUnmarked(lines, Onsong);
  }

  // ---------------------------------------------------------------------------
  // The imperative pass
  // ---------------------------------------------------------------------------

  /** What one line of the pass writes: its directive, if any, then its Body. */
  lemma RenderStep(lines: seq<string>, i: nat, before: bool, m: Marker)
    requires i < |lines|
    ensures RenderAll(Pass(lines[i..], before, m))
         == RenderAll(Delimiter(before, m.found(lines[i]))) + [Body(lines[i], m)]
            + RenderAll(Pass(lines[i + 1..], m.found(lines[i]), m))
  {
    assert lines[i..][0] == lines[i];
    assert lines[i..][1..] == lines[i + 1..];
    PassCons(lines[i..], before, m);
    var delimiter := Delimiter(before, m.found(lines[i]));
    var body := Text(Body(lines[i], m));
    RenderAllAppend(delimiter + [body], Pass(lines[i + 1..], m.found(lines[i]), m));
    RenderAllAppend(delimiter, [body]);
  }

  /** The strings one line contributes, in the terms of the loop body. */
  lemma OnsongStep(line: string, before: bool)
    ensures Onsong.found(line) == IsMarkerLine(line)
    ensures RenderAll(Delimiter(before, Onsong.found(line))) + [Body(line, Onsong)]
         == (if !before && IsMarkerLine(line) then [OpenTag] else if before && !IsMarkerLine(line) then [CloseTag] else [])
            + [if IsMarkerLine(line) then Strip(line) else line]
  {
  }

  /** One iteration of the per-file loop keeps what is written plus what the rest of
      the pass writes equal to the whole output. */
  lemma PatchFileStep(srcLines: seq<string>, i: nat, before: bool, start: seq<string>)
    requires i < |srcLines|
    requires start + RenderAll(Pass(srcLines[i..], before, Onsong)) == Patch(srcLines)
    ensures var line := srcLines[i];
            var found := IsMarkerLine(line);
            var tags := if !before && found then [OpenTag] else if before && !found then [CloseTag] else [];
            ((start + tags) + [if found then Strip(line) else line])
            + RenderAll(Pass(srcLines[i + 1..], found, Onsong)) == Patch(srcLines)
  {
    var line := srcLines[i];
    var found := IsMarkerLine(line);
    var tags := if !before && found then [OpenTag] else if before && !found then [CloseTag] else [];
    var text := if found then Strip(line) else line;
    RenderStep(srcLines, i, before, Onsong);
    OnsongStep(line, before);
    var rest := RenderAll(Pass(srcLines[i + 1..], found, Onsong));
    ConcatAssoc(start, tags, [text]);
    ConcatAssoc(start, tags + [text], rest);
  }

  /** The body of the per-file loop (lines 19-36): one pass over `srcLines` with the
      flag `addColor`, returning what is written to the file in order. */
  method PatchFile(srcLines: seq<string>) returns (written: seq<string>)
    ensures written == Patch(srcLines)
  {
    var addColor := false;
    written := [];
    for i := 0 to |srcLines|
      invariant addColor == FlagBefore(srcLines, i, Onsong)
      invariant addColor <==> i > 0 && Contains(srcLines[i - 1], Blue)
      invariant written + RenderAll(Pass(srcLines[i..], addColor, Onsong)) == Patch(srcLines)
    {
      var line := srcLines[i];
      ghost var before, start := addColor, written;
      ghost var found := IsMarkerLine(line);
      ghost var tags := if !before && found then [OpenTag] else if before && !found then [CloseTag] else [];
      if !addColor && IsMarkerLine(line) {
        addColor := true;
        written := written + [OpenTag];
      } else if addColor && !IsMarkerLine(line) {
        addColor := false;
        written := written + [CloseTag];
      }
      assert addColor == found && written == start + tags;
      ghost var text := if found then Strip(line) else line;
      if addColor {
        written := written + [Strip(line)];
      } else {
        written := written + [line];
      }
      assert written == (start + tags) + [text];
      MarkerLineIffContainsBlue(line);
      PatchFileStep(srcLines, i, before, start);
    }
    assert srcLines[|srcLines|..] == [];
    if addColor {
      written := written + [CloseTag];
    }
  }

  /** The loop over the collected files (line 14): each file is rewritten on its own,
      with the flag reset for each. */
  method PatchColors(files: seq<seq<string>>) returns (rewritten: seq<seq<string>>)
    ensures |rewritten| == |files|
    ensures forall k | 0 <= k < |files| :: rewritten[k] == Patch(files[k])
  {
    rewritten := [];
    for i := 0 to |files|
      invariant |rewritten| == i
      invariant forall k | 0 <= k < i :: rewritten[k] == Patch(files[k])
    {
      var written := PatchFile(files[i]);
      rewritten := rewritten + [written];
    }
  }

  // ---------------------------------------------------------------------------
  // The file of the repository's rewrite test
  // ---------------------------------------------------------------------------

  /** A leading `&blue: ` is removed as one match. */
  lemma StripLeadingMarker(rest: string)
    requires rest != [] && rest[0] != ' '
    ensures Strip(Blue + ": " + rest) == Strip(rest)
  {
    var line := Blue + ": " + rest;
    LeadingMarkerMatch(rest);
    assert line[7..] == rest;
  }

  /** `&blue: ` followed by a character other than a space is one match of length 7. */
  lemma LeadingMarkerMatch(rest: string)
    requires rest != [] && rest[0] != ' '
    ensures MarkerMatch(Blue + ": " + rest) == Some(7)
  {
    var line := Blue + ": " + rest;
    assert BlueAt(line, 0) && !BlueAt(line, 1);
    var tail := line[5..];
    assert tail == ": " + rest;
    assert tail[1..][1..] == rest;
    assert SpaceRun(tail[1..]) == 1;
  }

  /** A string without `&` is not changed by Strip. */
  lemma NoAmpersandUnchanged(s: string)
    requires '&' !in s
    ensures Strip(s) == s
  {
    NoAmpersandNoMarker(s);
    StripChangesExactlyMarked(s);
  }

  /** A string without `&` cannot contain the marker. */
  lemma NoAmpersandNoMarker(s: string)
    requires '&' !in s
    ensures !Contains(s, Blue)
  {
    forall i | 0 <= i <= |s| ensures !StartsWith(s[i..], Blue) {
      if i < |s| {
        assert s[i..][0] == s[i];
      }
    }
  }

  /** A marker line between two ordinary lines, as in the repository's rewrite test:
      the marker line is wrapped in the two directives and stripped; the others are kept. */
  lemma PatchOneMarkedLine(before: string, marked: string, after: string)
    requires !Contains(before, Blue) && Contains(marked, Blue) && !Contains(after, Blue)
    ensures Patch([before, marked, after]) == [before, OpenTag, Strip(marked), CloseTag, after]
  {
    MarkerLineIffContainsBlue(before);
    MarkerLineIffContainsBlue(marked);
    MarkerLineIffContainsBlue(after);
    PatchMarkedMiddle(before, marked, after);
  }

  lemma PatchMarkedMiddle(before: string, marked: string, after: string)
    requires !IsMarkerLine(before) && IsMarkerLine(marked) && !IsMarkerLine(after)
    ensures Patch([before, marked, after]) == [before, OpenTag, Strip(marked), CloseTag, after]
  {
    assert !Onsong.found(before) && Onsong.found(marked) && !Onsong.found(after);
    PassOneMarkedLine(before, marked, after, Onsong);
    RenderOneMarked(before, Onsong.strip(marked), after);
  }

  lemma RenderOneMarked(before: string, body: string, after: string)
    ensures RenderAll([Text(before), Open, Text(body), Close, Text(after)])
         == [before, OpenTag, body, CloseTag, after]
  {
  }

  /** The test's marker line `&blue: This is blue text` loses its marker, colon and space. */
  lemma StripMarkedTestLine(rest: string)
    requires rest == "This is blue text\n"
    ensures Strip(Blue + ": " + rest) == rest
  {
    TestLineShape(rest);
    StripLeadingMarker(rest);
    NoAmpersandUnchanged(rest);
  }

  /** A marker line with no final newline, such as `&blue: text`, is written as its
      stripped text between the two directives; no newline is added to it. */
  lemma PatchUnterminatedMarkerLine(rest: string)
    requires rest != [] && rest[0] != ' ' && '&' !in rest
    ensures Patch([Blue + ": " + rest]) == [OpenTag, rest, CloseTag]
  {
    var line := Blue + ": " + rest;
    LeadingMarkerLine(rest);
    PassSingleMarked(line, Onsong);
    RenderWrapped(rest);
  }

  /** `&blue: ` before text without `&` is a marker line that strips to that text. */
  lemma LeadingMarkerLine(rest: string)
    requires rest != [] && rest[0] != ' ' && '&' !in rest
    ensures IsMarkerLine(Blue + ": " + rest) && Strip(Blue + ": " + rest) == rest
  {
    LeadingBlueIsMarker(rest);
    StripLeadingMarker(rest);
    NoAmpersandUnchanged(rest);
  }

  lemma LeadingBlueIsMarker(rest: string)
    ensures IsMarkerLine(Blue + ": " + rest)
  {
    var line := Blue + ": " + rest;
    assert line[..5] == Blue;
    assert StartsWith(line, Blue);
  }

  lemma RenderWrapped(body: string)
    ensures RenderAll([Open, Text(body), Close]) == [OpenTag, body, CloseTag]
  {
  }

  /** The line `&blue: text` becomes `text`, between the two directives. */
  lemma PatchBlueText()
    ensures Patch(["&blue: text"]) == [OpenTag, "text", CloseTag]
  {
    var rest := "text";
    assert rest[0] != ' ' && '&' !in rest;
    assert Blue + ": " + rest == "&blue: text";
    PatchUnterminatedMarkerLine(rest);
  }

  lemma TestLineShape(rest: string)
    requires rest == "This is blue text\n"
    ensures rest != [] && rest[0] != ' ' && '&' !in rest
  {
  }
}
