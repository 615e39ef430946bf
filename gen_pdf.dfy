/** The job planner of `GenPDF.createPDFs`: which ChordPro conversions are run for
    a target, and with which argument lists.

    The filesystem is an input: the target is missing, a directory with the list of
    entries its recursive scan yields, or a single file. The external `chordpro`
    process is not run; the result records the argument list of each call instead. */
module GenPDF {
  import opened Strings
  import opened Seqs

  // ---------------------------------------------------------------------------
  // File names: `ext(p)` (lines 28-29)
  // ---------------------------------------------------------------------------

  /** `os.path.basename(p)` on POSIX: the longest suffix of `p` without a `/`. */
  function Basename(p: string): (b: string)
    ensures |b| <= |p|
    ensures '/' !in b
  {
    p[RFind(p, '/') + 1..]
  }

  /** The base name is the last component: what follows the last `/`, or all of `p`. */
  lemma BasenameIsLastComponent(p: string)
    ensures p == p[..|p| - |Basename(p)|] + Basename(p)
    ensures |Basename(p)| < |p| ==> p[|p| - |Basename(p)| - 1] == '/'
  {
  }

  /** `s` is made of `.` characters only, scanned from the left. */
  predicate OnlyDots(s: string)
  {
    s == [] || (s[0] == '.' && OnlyDots(s[1..]))
  }

  lemma {:induction false} OnlyDotsIff(s: string)
    ensures OnlyDots(s) <==> forall k | 0 <= k < |s| :: s[k] == '.'
  {
    if s != [] {
      OnlyDotsIff(s[1..]);
      if forall k | 0 <= k < |s| :: s[k] == '.' {
        forall k | 0 <= k < |s[1..]| ensures s[1..][k] == '.' {
          assert s[1..][k] == s[k + 1];
        }
      }
      if OnlyDots(s) {
        forall k | 1 <= k < |s| ensures s[k] == '.' {
          assert s[k] == s[1..][k - 1];
        }
      }
    }
  }

  /** The extension that `os.path.splitext` splits off a name `b` containing no `/`:
      the text from the last `.` on, unless only dots come before that `.`
      (so `.cho` and `..cho` have no extension). */
  function SplitExt(b: string): string
  {
    var d := RFind(b, '.');
    if d >= 0 && !OnlyDots(b[..d]) then b[d..] else ""
  }

  /** `ext(p)`: the extension of the base name, lowercased. */
  function Ext(p: string): string
  {
    Lower(SplitExt(Basename(p)))
  }

  /** A name has an extension when some `.` in it comes after a character that is not a `.`. */
  ghost predicate HasExtension(b: string)
  {
    exists i, j | 0 <= j < i < |b| :: b[i] == '.' && b[j] != '.'
  }

  /** The extension is empty exactly when the name has none; otherwise it is the
      text from the last `.` of the name, which has no other `.`. */
  lemma SplitExtCharacterized(b: string)
    ensures SplitExt(b) == [] <==> !HasExtension(b)
    ensures SplitExt(b) != [] ==>
              var d := |b| - |SplitExt(b)|;
              0 <= d < |b| && b[d] == '.' && SplitExt(b) == b[d..]
              && forall k | d < k < |b| :: b[k] != '.'
  {
    var d := RFind(b, '.');
    if d >= 0 {
      OnlyDotsIff(b[..d]);
    }
    if HasExtension(b) {
      var i, j :| 0 <= j < i < |b| && b[i] == '.' && b[j] != '.';
      assert i <= d;
      assert b[..d][j] != '.';
    }
    if d >= 0 && !OnlyDots(b[..d]) {
      var j :| 0 <= j < d && b[..d][j] != '.';
      assert b[j] != '.' && b[d] == '.';
    }
  }

  /** `ext` is empty exactly when the base name has no extension; otherwise it is
      the lowercased text from the last `.` of the base name. */
  lemma ExtCharacterized(p: string)
    ensures Ext(p) == [] <==> !HasExtension(Basename(p))
    ensures Ext(p) != [] ==>
              var b := Basename(p);
              var d := |b| - |Ext(p)|;
              0 <= d < |b| && b[d] == '.' && Ext(p) == Lower(b[d..])
              && forall k | d < k < |b| :: b[k] != '.'
  {
    SplitExtCharacterized(Basename(p));
  }

  // ---------------------------------------------------------------------------
  // The recognised extensions (lines 31, 37, 44)
  // ---------------------------------------------------------------------------

  const Extensions: seq<string> := [".chopro", ".cho"]

  /** The lowercased extensions, `.chopro` and `.cho`, written out; `LoweredExtensions`
      shows that this is the generator `(extension.lower() for extension in extensions)`. */
  predicate IsRecognizedExt(e: string)
  {
    e == ".chopro" || e == ".cho"
  }

  /** `ext(p) in (extension.lower() for extension in extensions)` */
  predicate IsRecognized(p: string)
  {
    IsRecognizedExt(Ext(p))
  }

  /** The written-out extensions are exactly the lowercased elements of `extensions`. */
  lemma LoweredExtensions(e: string)
    ensures IsRecognizedExt(e) <==> exists k | 0 <= k < |Extensions| :: e == Lower(Extensions[k])
  {
    ExtensionShape(".chopro");
    ExtensionShape(".cho");
    assert Extensions[0] == ".chopro" && Extensions[1] == ".cho";
  }

  /** The base name `b` ends with the lowercase extension `e` in any letter case,
      and something other than dots comes before that ending. */
  ghost predicate NamedWith(b: string, e: string)
  {
    |e| < |b| && Lower(b[|b| - |e|..]) == e && exists j | 0 <= j < |b| - |e| :: b[j] != '.'
  }

  lemma LowerAtDot(s: string, k: nat)
    requires k < |s|
    ensures Lower(s)[k] == '.' <==> s[k] == '.'
  {
    LowerAt(s, k);
  }

  /** What the two recognised extensions look like: a dot, then lower-case letters. */
  lemma ExtensionShape(e: string)
    requires e == ".chopro" || e == ".cho"
    ensures |e| >= 2 && e[0] == '.' && '.' !in e[1..] && Lower(e) == e
  {
    assert forall k | 0 <= k < |e| :: !('A' <= e[k] <= 'Z');
    LowerOfLowercase(e);
  }

  lemma {:induction false} NamedWithGivesExt(b: string, e: string)
    requires e != [] && e[0] == '.' && '.' !in e[1..] && NamedWith(b, e)
    ensures Lower(SplitExt(b)) == e
  {
    var d := |b| - |e|;
    var x := b[d..];
    LowerAtDot(x, 0);
    assert e[0] == '.';
    forall k | d < k < |b| ensures b[k] != '.' {
      assert b[k] == x[k - d];
      LowerAtDot(x, k - d);
      assert e[1..][k - d - 1] == e[k - d];
    }
    RFindIs(b, '.', d);
    var j :| 0 <= j < d && b[j] != '.';
    OnlyDotsIff(b[..d]);
    assert b[..d][j] != '.';
  }

  lemma {:induction false} ExtGivesNamedWith(b: string, e: string)
    requires e != [] && Lower(SplitExt(b)) == e
    ensures NamedWith(b, e)
  {
    SplitExtCharacterized(b);
    var d := |b| - |e|;
    assert SplitExt(b) != [];
    var i, j :| 0 <= j < i < |b| && b[i] == '.' && b[j] != '.';
    assert i <= d;
    assert j < d;
  }

  /** A path is converted exactly when its base name ends in `.chopro` or `.cho`,
      in any letter case, after at least one character other than a dot. */
  lemma RecognizedIff(p: string)
    ensures IsRecognized(p) <==> NamedWith(Basename(p), ".chopro") || NamedWith(Basename(p), ".cho")
  {
    var b := Basename(p);
    ExtensionShape(".chopro");
    ExtensionShape(".cho");
    if Ext(p) == ".chopro" {
      ExtGivesNamedWith(b, ".chopro");
    }
    if Ext(p) == ".cho" {
      ExtGivesNamedWith(b, ".cho");
    }
    if NamedWith(b, ".chopro") {
      NamedWithGivesExt(b, ".chopro");
    }
    if NamedWith(b, ".cho") {
      NamedWithGivesExt(b, ".cho");
    }
  }

  // ---------------------------------------------------------------------------
  // The output path (lines 39, 46)
  // ---------------------------------------------------------------------------

  /** `str(p).replace(ext(p), ".pdf")`: every occurrence of the lowercased extension
      in the whole path is replaced. */
  function OutputPath(p: string): string
  {
    Replace(p, Ext(p), ".pdf")
  }

  /** A name made of a stem without dots and an ending that is a dot followed by no
      further dot has that ending, lowercased, as its `ext`. */
  lemma ExtOfPlainName(stem: string, ending: string)
    requires stem != [] && '.' !in stem && stem[|stem| - 1] != '/'
    requires ending != [] && ending[0] == '.' && '.' !in ending[1..] && '/' !in ending
    ensures Ext(stem + ending) == Lower(ending)
  {
    var i := BasenameOfPlainName(stem, ending);
    SplitExtOfPlainName(stem[i + 1..], ending);
  }

  /** The base name of `stem + ending` is the last component of `stem` followed by
      `ending`, and that component is not empty. */
  lemma {:induction false} BasenameOfPlainName(stem: string, ending: string) returns (i: int)
    requires stem != [] && stem[|stem| - 1] != '/'
    requires '/' !in ending
    ensures -1 <= i < |stem| - 1
    ensures Basename(stem + ending) == stem[i + 1..] + ending
  {
    var p := stem + ending;
    i := RFind(p, '/');
    forall k | |stem| - 1 <= k < |p| ensures p[k] != '/' {
      if k >= |stem| {
        assert p[k] == ending[k - |stem|];
      }
    }
    assert p[i + 1..] == stem[i + 1..] + ending;
  }

  /** A name without dots, not empty, followed by a dot and no further dot, splits
      off exactly that ending. */
  lemma {:induction false} SplitExtOfPlainName(name: string, ending: string)
    requires name != [] && '.' !in name
    requires ending != [] && ending[0] == '.' && '.' !in ending[1..]
    ensures SplitExt(name + ending) == ending
  {
    var b := name + ending;
    forall k | |name| < k < |b| ensures b[k] != '.' {
      assert b[k] == ending[1..][k - |name| - 1];
    }
    RFindIs(b, '.', |name|);
    assert b[..|name|][0] == name[0];
    assert b[|name|..] == ending;
  }

  /** Replacing an ending that starts with the only dot of the path swaps it. */
  lemma {:induction false} ReplacePlainEnding(stem: string, e: string, replacement: string)
    requires '.' !in stem
    requires e != [] && e[0] == '.' && '.' !in e[1..]
    ensures Replace(stem + e, e, replacement) == stem + replacement
  {
    var p := stem + e;
    var t := p[..|p| - 1];
    forall i | 0 <= i <= |t| ensures !StartsWith(t[i..], e) {
      if i < |stem| {
        assert t[i..][0] == stem[i];
      } else if i == |stem| {
        assert |t[i..]| < |e|;
      } else if i < |t| {
        assert t[i..][0] == e[1..][i - |stem| - 1];
      }
    }
    assert !Contains(t, e);
    ReplaceEnding(stem, e, replacement);
  }

  /** The common case: a stem without dots followed by a lower-case `.chopro` or
      `.cho` is converted, and its output path swaps that ending for `.pdf`. */
  lemma PlainNameConverted(stem: string, e: string)
    requires stem != [] && '.' !in stem && stem[|stem| - 1] != '/'
    requires e == ".chopro" || e == ".cho"
    ensures IsRecognized(stem + e)
    ensures OutputPath(stem + e) == stem + ".pdf"
  {
    ExtensionShape(e);
    ExtOfPlainName(stem, e);
    ReplacePlainEnding(stem, e, ".pdf");
  }

  /** A path whose only dot starts its ending does not contain a dotted pattern
      that differs from the ending in the character after the dot. */
  lemma {:induction false} NoOtherOccurrence(stem: string, ending: string, e: string)
    requires '.' !in stem
    requires |ending| >= 2 && ending[0] == '.' && '.' !in ending[1..]
    requires |e| >= 2 && e[0] == '.' && e[1] != ending[1]
    ensures !Contains(stem + ending, e)
  {
    var p := stem + ending;
    forall i | 0 <= i <= |p| ensures !StartsWith(p[i..], e) {
      if i < |stem| {
        assert p[i..][0] == stem[i];
      } else if i == |stem| {
        assert |p[i..]| >= 2 && p[i..][1] == ending[1];
      } else if i < |p| {
        assert p[i..][0] == ending[1..][i - |stem| - 1];
      }
    }
  }

  /** The base name of `dir + "/" + name` is `name` when `name` has no `/`. */
  lemma BasenameAfterSlash(dir: string, name: string)
    requires '/' !in name
    ensures Basename(dir + "/" + name) == name
  {
    var p := dir + "/" + name;
    forall k | |dir| < k < |p| ensures p[k] != '/' {
      assert p[k] == name[k - |dir| - 1];
    }
    RFindIs(p, '/', |dir|);
    assert p[|dir| + 1..] == name;
  }

  /** A file `stem + e` inside a directory whose name ends in `e` has `e` as its `ext`. */
  lemma ExtUnderDirectory(dir: string, stem: string, e: string)
    requires stem != [] && '.' !in stem && '/' !in stem
    requires e == ".chopro" || e == ".cho"
    ensures Ext(dir + "/" + stem + e) == e
  {
    ExtensionShape(e);
    assert dir + "/" + stem + e == dir + "/" + (stem + e);
    BasenameAfterSlash(dir, stem + e);
    SplitExtOfPlainName(stem, e);
  }

  /** `replace` rewrites every occurrence of `ext`, not only the ending: a file in a
      directory named with the same extension gets `.pdf` in the directory name as well. */
  lemma DirectoryNamedLikeExtension(dir: string, stem: string, e: string)
    requires '.' !in dir
    requires stem != [] && '.' !in stem && '/' !in stem
    requires e == ".chopro" || e == ".cho"
    ensures IsRecognized(dir + e + "/" + stem + e)
    ensures OutputPath(dir + e + "/" + stem + e) == dir + ".pdf" + "/" + stem + ".pdf"
  {
    ExtUnderDirectory(dir + e, stem, e);
    var mid := "/" + stem;
    assert '.' !in mid && e[0] == '.';
    ReplaceTwice(dir, mid, e, ".pdf");
    Regroup(dir, e, "/", stem);
    Regroup(dir, ".pdf", "/", stem);
  }

  lemma LowerChoproUpper(u: string)
    requires u == ".CHOPRO"
    ensures Lower(u) == ".chopro"
  {
    LowerAt(u, 0); LowerAt(u, 1); LowerAt(u, 2); LowerAt(u, 3);
    LowerAt(u, 4); LowerAt(u, 5); LowerAt(u, 6);
  }

  /** With an upper-case extension the path does not contain its lowercased `ext`,
      so `replace` changes nothing and the output path is the source path itself. */
  lemma UpperCaseExtensionKeepsPath(stem: string)
    requires stem != [] && '.' !in stem && stem[|stem| - 1] != '/'
    ensures IsRecognized(stem + ".CHOPRO")
    ensures OutputPath(stem + ".CHOPRO") == stem + ".CHOPRO"
  {
    var ending := ".CHOPRO";
    assert '.' !in ending[1..] && '/' !in ending;
    ExtOfPlainName(stem, ending);
    LowerChoproUpper(ending);
    NoOtherOccurrence(stem, ending, ".chopro");
    ReplaceAbsent(stem + ending, ".chopro", ".pdf");
  }

  // ---------------------------------------------------------------------------
  // The argument lists (lines 7-25, 41, 48)
  // ---------------------------------------------------------------------------

  /** `chordproSettings`: the fixed options, with `showchords` and `pagesize` spliced in. */
  function Settings(showchords: string, pagesize: string): seq<string>
  {
    [ "chordpro",
      "--config=ukulele",
      "--config=ukulele-ly",
      "--define=pdf:diagrams:show=" + showchords,
      "--define=settings:inline-chords=true",
      "--define=pdf:even-odd-pages=0",
      "--define=pdf:margintop=70",
      "--define=pdf:marginbottom=0",
      "--define=pdf:marginleft=10",
      "--define=pdf:marginright=50",
      "--define=pdf:headspace=50",
      "--define=pdf:footspace=10",
      "--define=pdf:head-first-only=true",
      "--define=pdf:fonts:chord:color=red",
      "--define=pdf:papersize=" + pagesize,
      "--text-font=helvetica",
      "--chord-font=helvetica" ]
  }

  /** The argument list of the `subprocess.run` call that converts `p`. */
  function Invocation(p: string, pagesize: string, showchords: string): seq<string>
  {
    Settings(showchords, pagesize) + ["--output=" + OutputPath(p), p]
  }

  /** The fixed options: 17 of them, `showchords` in position 3 and `pagesize` in
      position 14, and every other option the same whatever the parameters. */
  lemma SettingsLayout(showchords: string, pagesize: string, showchords': string, pagesize': string)
    ensures |Settings(showchords, pagesize)| == 17
    ensures Settings(showchords, pagesize)[3] == "--define=pdf:diagrams:show=" + showchords
    ensures Settings(showchords, pagesize)[14] == "--define=pdf:papersize=" + pagesize
    ensures forall i | 0 <= i < 17 && i != 3 && i != 14 ::
              Settings(showchords, pagesize)[i] == Settings(showchords', pagesize')[i]
  {
  }

  /** Every call has 19 arguments: the fixed options, then the output option, then
      the source path. */
  lemma InvocationLayout(p: string, pagesize: string, showchords: string)
    ensures |Invocation(p, pagesize, showchords)| == 19
    ensures Invocation(p, pagesize, showchords)[..17] == Settings(showchords, pagesize)
    ensures Invocation(p, pagesize, showchords)[3] == "--define=pdf:diagrams:show=" + showchords
    ensures Invocation(p, pagesize, showchords)[14] == "--define=pdf:papersize=" + pagesize
    ensures Invocation(p, pagesize, showchords)[17] == "--output=" + OutputPath(p)
    ensures Invocation(p, pagesize, showchords)[18] == p
  {
    SettingsLayout(showchords, pagesize, showchords, pagesize);
  }

  // ---------------------------------------------------------------------------
  // The dispatch (lines 32-51)
  // ---------------------------------------------------------------------------

  /** What the filesystem says about the target: `os.path.exists` fails, or it is
      a directory whose recursive scan `rglob("*")` yields `entries` in this order,
      or it is something else, taken as a single file. */
  datatype Target = Missing | Directory(entries: seq<string>) | SingleFile

  /** The diagnostic for a missing target, or the argument lists of the
      conversions, in the order they are run. */
  datatype Outcome = NoSuchTarget(message: string) | Invoked(calls: seq<seq<string>>)

  /** The entries that are converted, in scan order. */
  function Recognized(entries: seq<string>): seq<string>
  {
    Filter(entries, IsRecognized)
  }

  /** The converted entries are exactly the recognised entries of the scan. */
  lemma RecognizedEntries(entries: seq<string>, x: string)
    ensures forall k | 0 <= k < |Recognized(entries)| :: IsRecognized(Recognized(entries)[k])
    ensures x in Recognized(entries) <==> x in entries && IsRecognized(x)
  {
    FilterKept(entries, IsRecognized);
    FilterMembers(entries, IsRecognized, x);
  }

  /** One argument list per path, in order. */
  function Invocations(paths: seq<string>, pagesize: string, showchords: string): seq<seq<string>>
  {
    Map(paths, p => Invocation(p, pagesize, showchords))
  }

  /** The argument lists of the conversions of a scan, in scan order. */
  function Calls(entries: seq<string>, pagesize: string, showchords: string): seq<seq<string>>
  {
    Invocations(Recognized(entries), pagesize, showchords)
  }

  /** Scanning one more entry adds its call, if it has one, at the end. */
  lemma CallsSnoc(a: seq<string>, p: string, pagesize: string, showchords: string)
    ensures Calls(a + [p], pagesize, showchords)
         == Calls(a, pagesize, showchords) + (if IsRecognized(p) then [Invocation(p, pagesize, showchords)] else [])
  {
    FilterSnoc(a, p, IsRecognized);
    var ra := Recognized(a);
    if IsRecognized(p) {
      MapSnoc(ra, p, q => Invocation(q, pagesize, showchords));
    } else {
      assert ra + [] == ra;
    }
  }

  /** The calls of the first `i + 1` entries extend those of the first `i`. */
  lemma CallsStep(entries: seq<string>, i: nat, pagesize: string, showchords: string)
    requires i < |entries|
    ensures Calls(entries[..i + 1], pagesize, showchords)
         == Calls(entries[..i], pagesize, showchords)
            + (if IsRecognized(entries[i]) then [Invocation(entries[i], pagesize, showchords)] else [])
  {
    CallsSnoc(entries[..i], entries[i], pagesize, showchords);
    assert entries[..i + 1] == entries[..i] + [entries[i]];
  }

  function Message(musicTarget: string): string
  {
    "no such file or folder '" + musicTarget + "'"
  }

  /** `createPDFs(musicTarget, pagesize, showchords)` as a plan. */
  function Plan(musicTarget: string, target: Target, pagesize: string, showchords: string): Outcome
  {
    match target
    case Missing => NoSuchTarget(Message(musicTarget))
    case Directory(entries) =>
      Invoked(Calls(entries, pagesize, showchords))
    case SingleFile =>
      Invoked(if IsRecognized(musicTarget) then [Invocation(musicTarget, pagesize, showchords)] else [])
  }

  /** The argument list the loop builds from the settings it computed once. */
  lemma InvocationOfSettings(settings: seq<string>, p: string, pagesize: string, showchords: string)
    requires settings == Settings(showchords, pagesize)
    ensures settings + ["--output=" + OutputPath(p), p] == Invocation(p, pagesize, showchords)
  {
  }

  /** The test and the call made for one path (lines 37-42 and 44-49): a recorded
      call when the path is recognised, nothing otherwise. */
  method ConvertOne(p: string, chordproSettings: seq<string>, pagesize: string, showchords: string)
    returns (made: seq<seq<string>>)
    requires chordproSettings == Settings(showchords, pagesize)
    ensures made == if IsRecognized(p) then [Invocation(p, pagesize, showchords)] else []
  {
    if IsRecognized(p) {
      var pdfOutput := OutputPath(p);
      InvocationOfSettings(chordproSettings, p, pagesize, showchords);
      made := [chordproSettings + ["--output=" + pdfOutput, p]];
    } else {
      made := [];
    }
  }

  /** The loop over a directory's entries (lines 33-42): one call per recognised entry,
      in the order of the scan. */
  method ConvertEntries(entries: seq<string>, chordproSettings: seq<string>, pagesize: string, showchords: string)
    returns (calls: seq<seq<string>>)
    requires chordproSettings == Settings(showchords, pagesize)
    ensures calls == Calls(entries, pagesize, showchords)
  {
    calls := [];
    assert entries[..0] == [];
    for i := 0 to |entries|
      invariant calls == Calls(entries[..i], pagesize, showchords)
    {
      var made := ConvertOne(entries[i], chordproSettings, pagesize, showchords);
      CallsStep(entries, i, pagesize, showchords);
      calls := calls + made;
    }
    assert entries[..|entries|] == entries;
  }

  /** The whole of lines 6-51: one `subprocess.run` per converted path, recorded. */
  method CreatePDFs(musicTarget: string, target: Target, pagesize: string, showchords: string)
    returns (outcome: Outcome)
    ensures outcome == Plan(musicTarget, target, pagesize, showchords)
  {
    var chordproSettings := Settings(showchords, pagesize);
    match target {
      case Missing =>
        outcome := NoSuchTarget("no such file or folder '" + musicTarget + "'");
      case Directory(entries) =>
        var calls := ConvertEntries(entries, chordproSettings, pagesize, showchords);
        outcome := Invoked(calls);
      case SingleFile =>
        var made := ConvertOne(musicTarget, chordproSettings, pagesize, showchords);
        outcome := Invoked(made);
    }
  }

  // ---------------------------------------------------------------------------
  // What each kind of target gives
  // ---------------------------------------------------------------------------

  /** A missing target converts nothing and reports
      `no such file or folder '<target>'`, the target quoted verbatim. */
  lemma MissingTargetReported(musicTarget: string, pagesize: string, showchords: string)
    ensures Plan(musicTarget, Missing, pagesize, showchords).NoSuchTarget?
    ensures var m := Plan(musicTarget, Missing, pagesize, showchords).message;
            |m| == |musicTarget| + 25
            && m[..24] == "no such file or folder '"
            && m[24..|m| - 1] == musicTarget
            && m[|m| - 1] == '\''
  {
    var m := Message(musicTarget);
    assert m == "no such file or folder '" + musicTarget + "'";
    assert m[..24] == "no such file or folder '";
    assert m[24..|m| - 1] == musicTarget;
  }

  /** A target that is not a directory is converted exactly when its `ext` is
      recognised, and then by one call whose last argument is the target itself. */
  lemma SingleFileDispatch(musicTarget: string, pagesize: string, showchords: string)
    ensures Plan(musicTarget, SingleFile, pagesize, showchords).Invoked?
    ensures var calls := Plan(musicTarget, SingleFile, pagesize, showchords).calls;
            (|calls| == 1 <==> IsRecognized(musicTarget))
            && (|calls| == 0 <==> !IsRecognized(musicTarget))
            && (IsRecognized(musicTarget) ==>
                  calls[0] == Invocation(musicTarget, pagesize, showchords)
                  && calls[0][18] == musicTarget
                  && calls[0][17] == "--output=" + OutputPath(musicTarget))
  {
    if IsRecognized(musicTarget) {
      InvocationLayout(musicTarget, pagesize, showchords);
    }
  }

  /** A directory gives one call per recognised entry of its scan and no other:
      the k-th call converts the k-th recognised entry, which is its last argument. */
  lemma DirectoryDispatch(musicTarget: string, entries: seq<string>, pagesize: string, showchords: string)
    ensures Plan(musicTarget, Directory(entries), pagesize, showchords).Invoked?
    ensures var calls := Plan(musicTarget, Directory(entries), pagesize, showchords).calls;
            |calls| == |Recognized(entries)|
            && forall k | 0 <= k < |calls| ::
                 IsRecognized(Recognized(entries)[k])
                 && calls[k] == Invocation(Recognized(entries)[k], pagesize, showchords)
                 && calls[k][18] == Recognized(entries)[k]
  {
    var rec := Recognized(entries);
    FilterKept(entries, IsRecognized);
    forall k | 0 <= k < |rec| ensures Invocation(rec[k], pagesize, showchords)[18] == rec[k] {
      InvocationLayout(rec[k], pagesize, showchords);
    }
  }

  // ---------------------------------------------------------------------------
  // The scenarios of the test suite, over any stem without dots
  // ---------------------------------------------------------------------------

  lemma TxtShape(e: string)
    requires e == ".txt"
    ensures |e| >= 2 && e[0] == '.' && '.' !in e[1..] && '/' !in e
    ensures Lower(e) == e
    ensures e != ".chopro" && e != ".cho"
  {
    assert forall k | 0 <= k < |e| :: !('A' <= e[k] <= 'Z');
    LowerOfLowercase(e);
  }

  /** A `.txt` file is not converted. */
  lemma TxtNotRecognized(stem: string)
    requires stem != [] && '.' !in stem && stem[|stem| - 1] != '/'
    ensures !IsRecognized(stem + ".txt")
  {
    var e := ".txt";
    TxtShape(e);
    ExtOfPlainName(stem, e);
    assert Ext(stem + e) == e;
  }

  /** `createPDFs("test.txt", …)` with an existing file makes no call. */
  lemma SingleTxtFileMakesNoCall(stem: string, pagesize: string, showchords: string)
    requires stem != [] && '.' !in stem && stem[|stem| - 1] != '/'
    ensures Plan(stem + ".txt", SingleFile, pagesize, showchords) == Invoked([])
  {
    TxtNotRecognized(stem);
  }

  /** `createPDFs("test.chopro", "a4", "true")` and `createPDFs("test.cho", "a6", "false")`
      make exactly one call: the fixed options, `--output=test.pdf`, the file. */
  lemma SingleSongFileMakesOneCall(stem: string, e: string, pagesize: string, showchords: string)
    requires stem != [] && '.' !in stem && stem[|stem| - 1] != '/'
    requires e == ".chopro" || e == ".cho"
    ensures IsRecognized(stem + e)
    ensures Plan(stem + e, SingleFile, pagesize, showchords)
         == Invoked([Settings(showchords, pagesize) + ["--output=" + (stem + ".pdf"), stem + e]])
  {
    PlainNameConverted(stem, e);
  }

  /** A file whose extension is written `.CHOPRO` is converted too. */
  lemma UpperCaseFileMakesOneCall(stem: string, pagesize: string, showchords: string)
    requires stem != [] && '.' !in stem && stem[|stem| - 1] != '/'
    ensures |Plan(stem + ".CHOPRO", SingleFile, pagesize, showchords).calls| == 1
  {
    UpperCaseExtensionKeepsPath(stem);
  }

  /** The test's temporary directory holding `song1.chopro`, `song2.cho` and
      `readme.txt` gives two calls, one per song. */
  lemma DirectoryWithTwoSongs(dir: string, pagesize: string, showchords: string)
    requires '.' !in dir
    ensures var entries := [dir + "/song1" + ".chopro", dir + "/song2" + ".cho", dir + "/readme" + ".txt"];
            var calls := Plan(dir, Directory(entries), pagesize, showchords).calls;
            |calls| == 2 && |calls[0]| == 19 && |calls[1]| == 19 && calls[0][18] == entries[0] && calls[1][18] == entries[1]
  {
    var s1, s2, s3 := dir + "/song1", dir + "/song2", dir + "/readme";
    assert '.' !in "/song1" && '.' !in "/song2" && '.' !in "/readme";
    PlainNameConverted(s1, ".chopro");
    PlainNameConverted(s2, ".cho");
    TxtNotRecognized(s3);
    var entries := [s1 + ".chopro", s2 + ".cho", s3 + ".txt"];
    FilterKeepsFirstTwo(entries[0], entries[1], entries[2], IsRecognized);
    DirectoryDispatch(dir, entries, pagesize, showchords);
    InvocationLayout(entries[0], pagesize, showchords);
    InvocationLayout(entries[1], pagesize, showchords);
  }
}
