/**
 * Comparing the rebuilt package with the published one (`src/lib.js:279-322`,
 * `src/main.js:208-246`): the file list read from `diff -urNqw`, one `diff -uNw` per file, and the
 * verdict that ignores `.npmignore` and Markdown files.
 */
module Compare {
  import opened Wrappers
  import opened Text
  import opened Package

  /** `lines.filter(Boolean)` */
  function NonEmpty(lines: seq<string>): (r: seq<string>)
    ensures forall i :: 0 <= i < |r| ==> r[i] != "" && r[i] in lines
    ensures forall l :: l in lines && l != "" ==> l in r
    ensures |r| <= |lines|
  {
    if lines == [] then []
    else if lines[0] == "" then NonEmpty(lines[1..])
    else [lines[0]] + NonEmpty(lines[1..])
  }

  /**
   * The filter keeps order and multiplicity: it works line by line, each empty line dropped and
   * each other line kept once, in place. With `NonEmpty([]) == []` these determine it.
   */
  lemma {:induction false} NonEmptyAppend(a: seq<string>, b: seq<string>)
    ensures NonEmpty(a + b) == NonEmpty(a) + NonEmpty(b)
    decreases |a|
  {
    if a == [] {
      assert a + b == b;
    } else {
      var ab := a + b;
      assert ab[0] == a[0] && ab[1..] == a[1..] + b;
      NonEmptyAppend(a[1..], b);
      if a[0] == "" {
        calc {
          NonEmpty(ab);
          NonEmpty(a[1..] + b);
          NonEmpty(a[1..]) + NonEmpty(b);
        }
      } else {
        calc {
          NonEmpty(ab);
          [a[0]] + NonEmpty(a[1..] + b);
          [a[0]] + (NonEmpty(a[1..]) + NonEmpty(b));
          ([a[0]] + NonEmpty(a[1..])) + NonEmpty(b);
        }
      }
    }
  }

  lemma NonEmptyLine(l: string)
    ensures NonEmpty([l]) == if l == "" then [] else [l]
  {
    assert [l][1..] == [];
  }

  /** The message of the `TypeError` thrown when a line of the file list has no second field. */
  const NoSecondFieldError := "TypeError: Cannot read properties of undefined (reading 'replace')"

  /** `line.split(' ', 2)[1].replace(`${packageDir}/`, '')`, `None` where the field is `undefined`. */
  function FileOfLine(line: string, packageDir: string): Option<string> {
    match SecondField(line)
    case None => None
    case Some(f) => Some(ReplaceFirst(f, packageDir + "/", ""))
  }

  /** The `map` over the lines: one file per line, in order, or the `TypeError` of the first line without a space. */
  function FilesOfLines(lines: seq<string>, packageDir: string): (r: Result<seq<string>>)
    ensures r.Success? <==> forall i :: 0 <= i < |lines| ==> ' ' in lines[i]
    ensures r.Failure? ==> r.error == NoSecondFieldError
    ensures r.Success? ==> |r.value| == |lines|
    ensures r.Success? ==> forall i :: 0 <= i < |lines| ==> Some(r.value[i]) == FileOfLine(lines[i], packageDir)
  {
    if lines == [] then Success([])
    else
      SecondFieldPresent(lines[0]);
      match FileOfLine(lines[0], packageDir)
      case None => Failure(NoSecondFieldError)
      case Some(f) =>
        match FilesOfLines(lines[1..], packageDir)
        case Failure(e) => Failure(e)
        case Success(rest) =>
          assert forall i :: 1 <= i < |lines| ==> lines[i] == lines[1..][i - 1];
          Success([f] + rest)
  }

  /** The file list `processPackage` reads from the output of `diff -urNqw`. */
  function ParseDiffList(raw: string, packageDir: string): Result<seq<string>> {
    FilesOfLines(NonEmpty(Split(raw, '\n')), packageDir)
  }

  /** `split(' ', 2)[1]` is defined exactly when the line holds a space. */
  lemma SecondFieldPresent(line: string)
    ensures SecondField(line).Some? <==> ' ' in line
  {
    if ' ' in line {
      SplitJoin(line, ' ');
      SplitPartsFree(line, ' ');
    } else {
      SplitWithoutSeparator(line, ' ');
    }
  }

  /** A first part without the separator is split off whole. */
  lemma {:induction false} SplitAfterFirstPart(a: string, rest: string, sep: char)
    requires sep !in a
    ensures Split(a + [sep] + rest, sep) == [a] + Split(rest, sep)
  {
    if a == [] {
      assert a + [sep] + rest == [sep] + rest;
      assert ([sep] + rest)[1..] == rest;
    } else {
      SplitAfterFirstPart(a[1..], rest, sep);
      var s := a + [sep] + rest;
      assert s[1..] == a[1..] + [sep] + rest;
      assert [a[0]] + a[1..] == a;
    }
  }

  /**
   * A line `Files <packageDir>/<file> and <other> differ` of `diff -q` names `<file>`, for paths
   * without spaces.
   */
  lemma QuietDiffLineNamesFile(packageDir: string, file: string, other: string)
    requires ' ' !in packageDir && ' ' !in file
    ensures FileOfLine("Files " + packageDir + "/" + file + " and " + other + " differ", packageDir) == Some(file)
  {
    var path := packageDir + "/" + file;
    var rest := "and " + other + " differ";
    var line := "Files " + packageDir + "/" + file + " and " + other + " differ";
    assert line == "Files" + [' '] + (path + [' '] + rest);
    SplitAfterFirstPart("Files", path + [' '] + rest, ' ');
    assert ' ' !in path;
    SplitAfterFirstPart(path, rest, ' ');
    assert SecondField(line) == Some(path);
    var pat := packageDir + "/";
    assert OccursAt(path, pat, 0);
    assert IndexOf(path, pat) == Some(0);
    assert path[|pat|..] == file;
    assert ReplaceFirst(path, pat, "") == file;
    assert FileOfLine(line, packageDir) == Some(file);
  }

  /** `diff -uNw <rebuilt>/package/<file> <packageDir>/<file>` */
  function DiffCommand(file: string, rebuiltDir: string, packageDir: string): Command {
    DiffFile(rebuiltDir + "/package/" + file, packageDir + "/" + file)
  }

  /** One `diff` per listed file, in order. */
  function DiffCommands(files: seq<string>, rebuiltDir: string, packageDir: string): (cs: seq<Command>)
    ensures |cs| == |files|
    ensures forall i :: 0 <= i < |files| ==> cs[i] == DiffCommand(files[i], rebuiltDir, packageDir)
  {
    if files == [] then [] else [DiffCommand(files[0], rebuiltDir, packageDir)] + DiffCommands(files[1..], rebuiltDir, packageDir)
  }

  /** The `diffs` array: one entry per listed file, in order, holding what its `diff` printed. */
  function FileDiffs(files: seq<string>, rebuiltDir: string, packageDir: string, env: Env): (ds: seq<FileDiff>)
    ensures |ds| == |files|
    ensures forall i :: 0 <= i < |files| ==>
      ds[i] == FileDiff(files[i], env.stdout(DiffCommand(files[i], rebuiltDir, packageDir)))
  {
    if files == [] then []
    else
      [FileDiff(files[0], env.stdout(DiffCommand(files[0], rebuiltDir, packageDir)))]
        + FileDiffs(files[1..], rebuiltDir, packageDir, env)
  }

  /**
   * The position of the first listed file, from `i` on, whose `diff` throws, or `|files|`. The
   * `|| true` hides only `diff`'s exit status: the command still throws when `bash` cannot be
   * run or its output overflows the buffer.
   */
  function FirstFailingDiff(files: seq<string>, rebuiltDir: string, packageDir: string, env: Env, i: nat): (k: nat)
    requires i <= |files|
    ensures i <= k <= |files|
    ensures forall j :: i <= j < k ==> env.fails(DiffCommand(files[j], rebuiltDir, packageDir)).None?
    ensures k < |files| ==> env.fails(DiffCommand(files[k], rebuiltDir, packageDir)).Some?
    decreases |files| - i
  {
    if i == |files| then i
    else if env.fails(DiffCommand(files[i], rebuiltDir, packageDir)).Some? then i
    else FirstFailingDiff(files, rebuiltDir, packageDir, env, i + 1)
  }

  /** The first failing `diff` is determined by the ones before it and itself. */
  lemma {:induction false} FirstFailingIs(files: seq<string>, rebuiltDir: string, packageDir: string, env: Env, i: nat, k: nat)
    requires i <= k <= |files|
    requires forall j :: i <= j < k ==> env.fails(DiffCommand(files[j], rebuiltDir, packageDir)).None?
    requires k < |files| ==> env.fails(DiffCommand(files[k], rebuiltDir, packageDir)).Some?
    ensures FirstFailingDiff(files, rebuiltDir, packageDir, env, i) == k
    decreases k - i
  {
    if i < k {
      FirstFailingIs(files, rebuiltDir, packageDir, env, i + 1, k);
    }
  }

  /**
   * The loop that runs one `diff` per file: the diffs of the files before the first failing one,
   * the commands up to and including it, and its error, which the loop throws.
   */
  method CollectDiffs(files: seq<string>, rebuiltDir: string, packageDir: string, env: Env)
    returns (diffs: seq<FileDiff>, ran: seq<Command>, failed: Option<string>)
    ensures var k := FirstFailingDiff(files, rebuiltDir, packageDir, env, 0);
      diffs == FileDiffs(files[..k], rebuiltDir, packageDir, env)
      && ran == DiffCommands(files[..if k < |files| then k + 1 else k], rebuiltDir, packageDir)
      && failed == (if k < |files| then env.fails(DiffCommand(files[k], rebuiltDir, packageDir)) else None)
  {
    diffs := [];
    ran := [];
    failed := None;
    var i := 0;
    while i < |files|
      invariant 0 <= i <= |files|
      invariant |diffs| == |ran| == i && failed.None?
      invariant forall j :: 0 <= j < i ==> env.fails(DiffCommand(files[j], rebuiltDir, packageDir)).None?
      invariant forall j :: 0 <= j < i ==>
        diffs[j] == FileDiff(files[j], env.stdout(DiffCommand(files[j], rebuiltDir, packageDir)))
      invariant forall j :: 0 <= j < i ==> ran[j] == DiffCommand(files[j], rebuiltDir, packageDir)
    {
      var command := DiffCommand(files[i], rebuiltDir, packageDir);
      ran := ran + [command];
      failed := env.fails(command);
      if failed.Some? {
        FirstFailingIs(files, rebuiltDir, packageDir, env, 0, i);
        CommandsAre(files, rebuiltDir, packageDir, i + 1, ran);
        DiffsAre(files, rebuiltDir, packageDir, env, i, diffs);
        return;
      }
      diffs := diffs + [FileDiff(files[i], env.stdout(command))];
      i := i + 1;
    }
    FirstFailingIs(files, rebuiltDir, packageDir, env, 0, |files|);
    CommandsAre(files, rebuiltDir, packageDir, |files|, ran);
    DiffsAre(files, rebuiltDir, packageDir, env, |files|, diffs);
  }

  /** Commands built one per file, in order, are `DiffCommands` of those files. */
  lemma CommandsAre(files: seq<string>, rebuiltDir: string, packageDir: string, n: nat, ran: seq<Command>)
    requires n <= |files| && |ran| == n
    requires forall j :: 0 <= j < n ==> ran[j] == DiffCommand(files[j], rebuiltDir, packageDir)
    ensures ran == DiffCommands(files[..n], rebuiltDir, packageDir)
  {
    var cs := DiffCommands(files[..n], rebuiltDir, packageDir);
    assert forall j :: 0 <= j < n ==> cs[j] == ran[j];
  }

  /** Diffs collected one per file, in order, are `FileDiffs` of those files. */
  lemma DiffsAre(files: seq<string>, rebuiltDir: string, packageDir: string, env: Env, n: nat, diffs: seq<FileDiff>)
    requires n <= |files| && |diffs| == n
    requires forall j :: 0 <= j < n ==>
      diffs[j] == FileDiff(files[j], env.stdout(DiffCommand(files[j], rebuiltDir, packageDir)))
    ensures diffs == FileDiffs(files[..n], rebuiltDir, packageDir, env)
  {
    var ds := FileDiffs(files[..n], rebuiltDir, packageDir, env);
    assert forall j :: 0 <= j < n ==> ds[j] == diffs[j];
  }

  /** Drops the trailing `/` characters, as `path.extname` does before looking at the last segment. */
  function StripTrailingSlashes(p: string): string
    decreases |p|
  {
    if p != [] && p[|p| - 1] == '/' then StripTrailingSlashes(p[..|p| - 1]) else p
  }

  /** The text after the last `/`. */
  function LastSegment(p: string): string
    decreases |p|
  {
    if p == [] || p[|p| - 1] == '/' then [] else LastSegment(p[..|p| - 1]) + [p[|p| - 1]]
  }

  /** The last segment is the longest `/`-free suffix. */
  lemma {:induction false} LastSegmentFacts(p: string)
    ensures var seg := LastSegment(p);
      '/' !in seg && |seg| <= |p| && seg == p[|p| - |seg|..]
      && (|seg| < |p| ==> p[|p| - |seg| - 1] == '/')
    decreases |p|
  {
    if p != [] && p[|p| - 1] != '/' {
      var init := LastSegment(p[..|p| - 1]);
      LastSegmentFacts(p[..|p| - 1]);
      assert p[|p| - 1 - |init|..] == init + [p[|p| - 1]];
    }
  }

  /** `s.lastIndexOf(c)`, `None` for -1. */
  function LastIndexOf(s: string, c: char): (r: Option<nat>)
    ensures r.Some? ==> r.value < |s|
    decreases |s|
  {
    if s == [] then None
    else if s[|s| - 1] == c then Some(|s| - 1)
    else LastIndexOf(s[..|s| - 1], c)
  }

  /** `lastIndexOf` finds the last position holding the character, and -1 when none does. */
  lemma {:induction false} LastIndexOfFacts(s: string, c: char)
    ensures var r := LastIndexOf(s, c);
      (r.Some? ==> r.value < |s| && s[r.value] == c && forall j :: r.value < j < |s| ==> s[j] != c)
      && (r.None? ==> c !in s)
    decreases |s|
  {
    if s != [] && s[|s| - 1] != c {
      LastIndexOfFacts(s[..|s| - 1], c);
      assert s == s[..|s| - 1] + [s[|s| - 1]];
    }
  }

  /** The file name `path.extname` looks at: the last segment, trailing slashes dropped. */
  function BaseName(path: string): string {
    LastSegment(StripTrailingSlashes(path))
  }

  /**
   * `path.extname` of the POSIX path module: from the last `.` of the last segment to its end; the
   * empty string when the segment has no `.`, when its last `.` is its first character, or when it is `..`.
   */
  function Extname(path: string): string {
    SegmentExt(BaseName(path))
  }

  function SegmentExt(seg: string): string {
    match LastIndexOf(seg, '.')
    case None => ""
    case Some(d) => if d == 0 || seg == ".." then "" else seg[d..]
  }

  /** The files whose differences do not fail the verification. */
  predicate Ignorable(file: string) {
    file == ".npmignore" || Extname(file) == ".md"
  }

  /** A file has the extension `.md` exactly when its name ends in `.md` after at least one other character. */
  lemma ExtnameIsMd(path: string)
    ensures Extname(path) == ".md" <==>
      var seg := BaseName(path); |seg| > 3 && seg[|seg| - 3..] == ".md"
  {
    var seg := BaseName(path);
    if |seg| > 3 && seg[|seg| - 3..] == ".md" {
      MdSegmentHasExt(seg);
    }
    if SegmentExt(seg) == ".md" {
      MdExtEndsSegment(seg);
    }
  }

  lemma MdSegmentHasExt(seg: string)
    requires |seg| > 3 && seg[|seg| - 3..] == ".md"
    ensures SegmentExt(seg) == ".md"
  {
    var d := |seg| - 3;
    assert seg[d] == '.' && seg[d + 1] == 'm' && seg[d + 2] == 'd';
    LastIndexOfFacts(seg, '.');
    var r := LastIndexOf(seg, '.');
    assert r.Some?;
    assert r.value == d;
  }

  lemma MdExtEndsSegment(seg: string)
    requires SegmentExt(seg) == ".md"
    ensures |seg| > 3 && seg[|seg| - 3..] == ".md"
  {
    LastIndexOfFacts(seg, '.');
    var d := LastIndexOf(seg, '.').value;
    assert seg[d..] == ".md";
  }

  /** The base name of a path that ends in a `/`-free name right after a `/` (or that is the name). */
  lemma BaseNameIs(path: string, name: string)
    requires name != "" && '/' !in name
    requires |name| <= |path| && path[|path| - |name|..] == name
    requires |name| < |path| ==> path[|path| - |name| - 1] == '/'
    ensures BaseName(path) == name
  {
    SuffixLast(path, name);
    StripNothing(path);
    BaseNameOfSuffix(path, name);
  }

  lemma SuffixLast(path: string, name: string)
    requires name != [] && |name| <= |path| && path[|path| - |name|..] == name
    ensures path[|path| - 1] == name[|name| - 1]
  {
    assert path[|path| - |name|..][|name| - 1] == path[|path| - 1];
  }

  lemma StripNothing(p: string)
    requires p != [] && p[|p| - 1] != '/'
    ensures StripTrailingSlashes(p) == p
  {
  }

  lemma {:induction false} BaseNameOfSuffix(path: string, name: string)
    requires '/' !in name
    requires |name| <= |path| && path[|path| - |name|..] == name
    requires |name| < |path| ==> path[|path| - |name| - 1] == '/'
    ensures LastSegment(path) == name
    decreases |name|
  {
    if name != [] {
      var p' := path[..|path| - 1];
      var n' := name[..|name| - 1];
      assert path[|path| - 1] == name[|name| - 1];
      assert p'[|p'| - |n'|..] == n';
      if |n'| < |p'| {
        assert p'[|p'| - |n'| - 1] == path[|path| - |name| - 1];
      }
      BaseNameOfSuffix(p', n');
      assert name == n' + [name[|name| - 1]];
    }
  }

  /** A Markdown file is ignored, at the top or in a sub-directory. */
  lemma MarkdownIgnored(dir: string, stem: string)
    requires stem != "" && '/' !in stem
    ensures Ignorable(stem + ".md") && Ignorable(dir + "/" + stem + ".md")
  {
    var name := stem + ".md";
    BaseNameIs(name, name);
    ExtnameIsMd(name);
    BaseNameIs(dir + "/" + name, name);
    assert dir + "/" + stem + ".md" == dir + "/" + name;
    ExtnameIsMd(dir + "/" + name);
  }

  /** The extension is compared case-sensitively, and a file named just `.md` has none. */
  lemma NotMarkdown(stem: string)
    requires '/' !in stem
    ensures !Ignorable(stem + ".MD") && !Ignorable(".md")
  {
    var name := stem + ".MD";
    BaseNameIs(name, name);
    ExtnameIsMd(name);
    assert name[|name| - 3..] == ".MD";
    BaseNameIs(".md", ".md");
    ExtnameIsMd(".md");
  }

  /** Only a top-level `.npmignore` is ignored: the whole path is compared. */
  lemma NestedNpmignoreSignificant(dir: string)
    ensures Ignorable(".npmignore") && !Ignorable(dir + "/.npmignore")
  {
    var path := dir + "/.npmignore";
    BaseNameIs(path, ".npmignore");
    ExtnameIsMd(path);
    assert |path| > |".npmignore"|;
  }

  /** The verdict: every differing file is ignorable. */
  predicate AllIgnorable(diffs: seq<FileDiff>) {
    forall i :: 0 <= i < |diffs| ==> Ignorable(diffs[i].file)
  }

  /** The `success` loop: skip ignorable files and stop at the first significant one. */
  method ClassifyDiffs(diffs: seq<FileDiff>) returns (success: bool)
    ensures success <==> AllIgnorable(diffs)
    ensures !success ==> exists i :: 0 <= i < |diffs| && !Ignorable(diffs[i].file)
  {
    success := true;
    var i := 0;
    while i < |diffs|
      invariant 0 <= i <= |diffs|
      invariant forall j :: 0 <= j < i ==> Ignorable(diffs[j].file)
    {
      var file := diffs[i].file;
      if !Ignorable(file) {
        success := false;
        return;
      }
      i := i + 1;
    }
  }
}
