/** The line pass of `PatchTextColor.PatchColors` (lines 19-36), written over any
    marker test and any strip step: a flag `addColor` follows the lines; a line
    for which the test succeeds while the flag is down raises it and writes an
    opening directive, a line for which it fails while the flag is up lowers it
    and writes a closing directive; each line is then written stripped when the
    flag is up and unchanged otherwise, and a closing directive ends an input
    that ends with the flag up.

    Nothing here depends on what the marker test or the strip step is, so the
    facts about the order of directives and lines are proved once for every
    choice of the two. */
module LinePass {

  /** The marker test of a line, and what is written for a line inside a run. */
  datatype Marker = Marker(found: string -> bool, strip: string -> string)

  /** One string handed to `f.write`: an opening or a closing colour directive,
      or a (possibly stripped) source line. */
  datatype Emit = Open | Close | Text(line: string)

  /** The directive written before a line: an opening one when a run starts, a
      closing one when it ends, none otherwise. */
  function Delimiter(addColor: bool, found: bool): seq<Emit>
  {
    if !addColor && found then [Open] else if addColor && !found then [Close] else []
  }

  /** What the pass writes for `lines` when the flag `addColor` starts with the given value. */
  function Pass(lines: seq<string>, addColor: bool, m: Marker): seq<Emit>
    decreases |lines|
  {
    if lines == [] then
      if addColor then [Close] else []
    else
      var line := lines[0];
      var found := m.found(line);
      var flag := if !addColor && found then true else if addColor && !found then false else addColor;
      Delimiter(addColor, found) + [Text(if flag then m.strip(line) else line)] + Pass(lines[1..], flag, m)
  }

  /** How a line appears in the output: stripped when it is a marker line, unchanged otherwise. */
  function Body(line: string, m: Marker): string
  {
    if m.found(line) then m.strip(line) else line
  }

  /** One step of the pass: the flag after a line is whether that line is a marker
      line, and the line is written as its Body. */
  lemma PassCons(lines: seq<string>, addColor: bool, m: Marker)
    requires lines != []
    ensures Pass(lines, addColor, m)
         == Delimiter(addColor, m.found(lines[0])) + [Text(Body(lines[0], m))] + Pass(lines[1..], m.found(lines[0]), m)
  {
  }

  /** A file of one marker line is that line, stripped, between the two directives. */
  lemma PassSingleMarked(line: string, m: Marker)
    requires m.found(line)
    ensures Pass([line], false, m) == [Open, Text(m.strip(line)), Close]
  {
    PassCons([line], false, m);
    assert [line][1..] == [];
  }

  // ---------------------------------------------------------------------------
  // A positional reference for the pass: it looks at each line and its predecessor
  // and needs no flag.
  // ---------------------------------------------------------------------------

  /** Line `i` is the first line of a maximal run of marker lines. */
  predicate StartsRun(lines: seq<string>, i: nat, m: Marker)
    requires i < |lines|
  {
    m.found(lines[i]) && (i == 0 || !m.found(lines[i - 1]))
  }

  /** Line `i` is the first line after a maximal run of marker lines. */
  predicate EndsRun(lines: seq<string>, i: nat, m: Marker)
    requires i < |lines|
  {
    !m.found(lines[i]) && i > 0 && m.found(lines[i - 1])
  }

  /** The input ends inside a run. */
  predicate EndsInRun(lines: seq<string>, m: Marker)
  {
    |lines| > 0 && m.found(lines[|lines| - 1])
  }

  /** Line `i` with the directive, if any, that goes immediately before it. */
  function Chunk(lines: seq<string>, i: nat, m: Marker): seq<Emit>
    requires i < |lines|
  {
    (if StartsRun(lines, i, m) then [Open] else [])
    + (if EndsRun(lines, i, m) then [Close] else [])
    + [Text(Body(lines[i], m))]
  }

  function ChunksFrom(lines: seq<string>, i: nat, m: Marker): seq<Emit>
    requires i <= |lines|
    decreases |lines| - i
  {
    if i == |lines| then [] else Chunk(lines, i, m) + ChunksFrom(lines, i + 1, m)
  }

  function Reference(lines: seq<string>, m: Marker): seq<Emit>
  {
    ChunksFrom(lines, 0, m) + (if EndsInRun(lines, m) then [Close] else [])
  }

  /** The number of maximal runs of marker lines that start at or after line `i`. */
  function RunsFrom(lines: seq<string>, i: nat, m: Marker): nat
    requires i <= |lines|
    decreases |lines| - i
  {
    if i == |lines| then 0 else (if StartsRun(lines, i, m) then 1 else 0) + RunsFrom(lines, i + 1, m)
  }

  function RunCount(lines: seq<string>, m: Marker): nat
  {
    RunsFrom(lines, 0, m)
  }

  /** The flag before line `i`: whether line `i - 1` was a marker line. */
  function FlagBefore(lines: seq<string>, i: nat, m: Marker): bool
    requires i <= |lines|
  {
    i > 0 && m.found(lines[i - 1])
  }

  /** The pass agrees with the reference from any line on, given the flag the pass has there. */
  lemma {:induction false} PassFrom(lines: seq<string>, i: nat, m: Marker)
    requires i <= |lines|
    ensures Pass(lines[i..], FlagBefore(lines, i, m), m)
            == ChunksFrom(lines, i, m) + (if EndsInRun(lines, m) then [Close] else [])
    decreases |lines| - i
  {
    if i < |lines| {
      assert lines[i..][0] == lines[i];
      assert lines[i..][1..] == lines[i + 1..];
      PassFrom(lines, i + 1, m);
    }
  }

  /** What the pass writes is the reference: every line in order, each marker line
      stripped and every other line unchanged; an opening directive immediately
      before the first line of each run and nowhere else; a closing directive
      immediately before the first line after each run, or last when the input
      ends inside a run. */
  lemma PassIsReference(lines: seq<string>, m: Marker)
    ensures Pass(lines, false, m) == Reference(lines, m)
  {
    PassFrom(lines, 0, m);
    assert lines[0..] == lines;
  }

  // ---------------------------------------------------------------------------
  // Directives and lines, each on their own
  // ---------------------------------------------------------------------------

  /** The directives among the emitted strings, in order. */
  function Directives(es: seq<Emit>): seq<Emit>
  {
    if es == [] then [] else (if es[0].Text? then [] else [es[0]]) + Directives(es[1..])
  }

  /** The text lines among the emitted strings, in order. */
  function Texts(es: seq<Emit>): seq<string>
  {
    if es == [] then [] else (if es[0].Text? then [es[0].line] else []) + Texts(es[1..])
  }

  lemma {:induction false} DirectivesAppend(a: seq<Emit>, b: seq<Emit>)
    ensures Directives(a + b) == Directives(a) + Directives(b)
    ensures Texts(a + b) == Texts(a) + Texts(b)
  {
    if a != [] {
      assert (a + b)[0] == a[0];
      assert (a + b)[1..] == a[1..] + b;
      DirectivesAppend(a[1..], b);
    } else {
      assert a + b == b;
    }
  }

  lemma {:induction false} DirectivesAndTexts(es: seq<Emit>)
    ensures |es| == |Directives(es)| + |Texts(es)|
  {
    if es != [] {
      DirectivesAndTexts(es[1..]);
    }
  }

  /** `n` opening directives, each followed by its closing one. */
  function Pairs(n: nat): seq<Emit>
  {
    if n == 0 then [] else [Open, Close] + Pairs(n - 1)
  }

  lemma {:induction false} PairsLength(n: nat)
    ensures |Pairs(n)| == 2 * n
  {
    if n > 0 {
      PairsLength(n - 1);
    }
  }

  /** A step contributes its directive, if any, to the directives and its line to the texts. */
  lemma StepParts(delimiter: seq<Emit>, body: string, rest: seq<Emit>)
    requires delimiter == [] || delimiter == [Open] || delimiter == [Close]
    ensures Directives(delimiter + [Text(body)] + rest) == delimiter + Directives(rest)
    ensures Texts(delimiter + [Text(body)] + rest) == [body] + Texts(rest)
  {
    DirectivesAppend(delimiter + [Text(body)], rest);
    DirectivesAppend(delimiter, [Text(body)]);
    DelimiterParts(delimiter);
    TextParts(body);
  }

  lemma DelimiterParts(delimiter: seq<Emit>)
    requires delimiter == [] || delimiter == [Open] || delimiter == [Close]
    ensures Directives(delimiter) == delimiter && Texts(delimiter) == []
  {
    if delimiter != [] {
      assert delimiter[1..] == [];
    }
  }

  lemma TextParts(body: string)
    ensures Directives([Text(body)]) == [] && Texts([Text(body)]) == [body]
  {
    assert [Text(body)][1..] == [];
  }

  lemma {:induction false} DirectivesFrom(lines: seq<string>, i: nat, m: Marker)
    requires i <= |lines|
    ensures Directives(Pass(lines[i..], FlagBefore(lines, i, m), m))
            == (if FlagBefore(lines, i, m) then [Close] else []) + Pairs(RunsFrom(lines, i, m))
    decreases |lines| - i
  {
    if i < |lines| {
      var flag := FlagBefore(lines, i, m);
      var line := lines[i];
      assert lines[i..][0] == line;
      assert lines[i..][1..] == lines[i + 1..];
      DirectivesFrom(lines, i + 1, m);
      var found := m.found(line);
      PassCons(lines[i..], flag, m);
      StepParts(Delimiter(flag, found), Body(line, m), Pass(lines[i + 1..], found, m));
      assert StartsRun(lines, i, m) == (found && !flag);
      DirectivesStep(flag, found, RunsFrom(lines, i + 1, m));
    }
  }

  /** The directive of one line joins the directives after it. */
  lemma DirectivesStep(flag: bool, found: bool, r: nat)
    ensures Delimiter(flag, found) + ((if found then [Close] else []) + Pairs(r))
         == (if flag then [Close] else []) + Pairs((if found && !flag then 1 else 0) + r)
  {
    if found && !flag {
      assert Pairs(1 + r) == [Open, Close] + Pairs(r);
    }
  }

  /** The directives alternate, an opening one first, one pair per run of marker lines. */
  lemma DirectivesAlternate(lines: seq<string>, m: Marker)
    ensures Directives(Pass(lines, false, m)) == Pairs(RunCount(lines, m))
  {
    DirectivesFrom(lines, 0, m);
    assert lines[0..] == lines;
  }

  function Bodies(lines: seq<string>, m: Marker): seq<string>
  {
    seq(|lines|, k requires 0 <= k < |lines| => Body(lines[k], m))
  }

  /** Every source line is written once, in order, as its Body, whatever the flag was before it. */
  lemma {:induction false} TextsAreBodies(lines: seq<string>, addColor: bool, m: Marker)
    ensures Texts(Pass(lines, addColor, m)) == Bodies(lines, m)
    decreases |lines|
  {
    if lines != [] {
      var line := lines[0];
      var found := m.found(line);
      PassCons(lines, addColor, m);
      StepParts(Delimiter(addColor, found), Body(line, m), Pass(lines[1..], found, m));
      TextsAreBodies(lines[1..], found, m);
      BodiesCons(lines, m);
    }
  }

  lemma BodiesCons(lines: seq<string>, m: Marker)
    requires lines != []
    ensures Bodies(lines, m) == [Body(lines[0], m)] + Bodies(lines[1..], m)
  {
  }

  /** The pass writes two more strings than it reads lines for each run of marker lines. */
  lemma PassLength(lines: seq<string>, m: Marker)
    ensures |Pass(lines, false, m)| == |lines| + 2 * RunCount(lines, m)
  {
    var es := Pass(lines, false, m);
    DirectivesAndTexts(es);
    DirectivesAlternate(lines, m);
    PairsLength(RunCount(lines, m));
    TextsAreBodies(lines, false, m);
  }

  /** When no line is a marker line, every line is written unchanged and nothing else is. */
  lemma {:induction false} PassUnmarked(lines: seq<string>, m: Marker)
    requires forall k | 0 <= k < |lines| :: !m.found(lines[k])
    ensures Pass(lines, false, m) == seq(|lines|, k requires 0 <= k < |lines| => Text(lines[k]))
    decreases |lines|
  {
    if lines != [] {
      PassUnmarked(lines[1..], m);
    }
  }

  /** A marker line between two other lines is wrapped in the two directives and
      stripped; the other two are written unchanged. */
  lemma PassOneMarkedLine(before: string, marked: string, after: string, m: Marker)
    requires !m.found(before) && m.found(marked) && !m.found(after)
    ensures Pass([before, marked, after], false, m)
         == [Text(before), Open, Text(m.strip(marked)), Close, Text(after)]
  {
    var lines := [before, marked, after];
    assert lines[1..] == [marked, after] && lines[1..][1..] == [after] && [after][1..] == [];
    PassCons(lines, false, m);
    PassCons(lines[1..], false, m);
    PassCons([after], true, m);
  }
}
