/** The coverage environments: reinstalling packages with yum, unpacking one package archive in a
    temporary directory, keeping a git mirror and a working copy of a source tree, and applying the
    patches a dist-git packaging repository lists in its `.spec` file. */
module CoverageEnv {
  import opened Errors
  import opened Text
  import opened Numerals
  import opened Host

  /** A package identifier `name-version-release.arch`, as `parse_package_name` splits it. */
  datatype PackageId = PackageId(name: string, version: string, release: string, arch: string)

  // ---------------------------------------------------------------------------------------------
  // RpmCoverageEnv

  /** What one package contributes to `yum remove`: its name when it parses, else the raw string. */
  function RemoveName(parse: string -> Result<PackageId>, package: string): string {
    var p := parse(package);
    if p.Ok? then p.value.name else package
  }

  /** What one package contributes to `yum install`: `name-version-release` when it parses (the
      architecture is dropped), else the raw string. */
  function InstallName(parse: string -> Result<PackageId>, package: string): string {
    var p := parse(package);
    if p.Ok? then p.value.name + "-" + p.value.version + "-" + p.value.release else package
  }

  /** The removal list: one entry per package, in the order given. */
  function RemoveList(parse: string -> Result<PackageId>, packages: seq<string>): seq<string> {
    seq(|packages|, k requires 0 <= k < |packages| => RemoveName(parse, packages[k]))
  }

  /** The install list: one entry per package, in the order given. */
  function InstallList(parse: string -> Result<PackageId>, packages: seq<string>): seq<string> {
    seq(|packages|, k requires 0 <= k < |packages| => InstallName(parse, packages[k]))
  }

  /** `yum <verb> -y` with the names joined by spaces. */
  function YumCommand(verb: string, names: seq<string>): string {
    "yum " + verb + " -y " + Join(names, " ")
  }

  function RemoveCommand(names: seq<string>): string {
    YumCommand("remove", names)
  }

  function InstallCommand(names: seq<string>): string {
    YumCommand("install", names)
  }

  /** `yum <verb> -y` in front of the rest of a command line: its three leading arguments. */
  lemma SplitYumCommand(verb: string, rest: string)
    requires IsWord(verb)
    ensures Split("yum " + verb + " -y " + rest) == ["yum", verb, "-y"] + Split(rest)
  {
    assert "yum " + verb + " -y " + rest == "yum" + " " + (verb + " " + ("-y" + " " + rest));
    SplitThreeWords("yum", verb, "-y", rest);
  }

  /** Three words, each followed by a space, are split off as the first three arguments. */
  lemma SplitThreeWords(a: string, b: string, c: string, rest: string)
    requires IsWord(a) && IsWord(b) && IsWord(c)
    ensures Split(a + " " + (b + " " + (c + " " + rest))) == [a, b, c] + Split(rest)
  {
    SplitLeadingWord(c, rest);
    SplitLeadingWord(b, c + " " + rest);
    SplitLeadingWord(a, b + " " + (c + " " + rest));
  }

  /** `yum` receives every entry of the lists as one argument, in order, after `remove -y` or
      `install -y`. */
  lemma YumArgs(parse: string -> Result<PackageId>, packages: seq<string>)
    requires forall k :: 0 <= k < |packages| ==> IsWord(RemoveName(parse, packages[k]))
    requires forall k :: 0 <= k < |packages| ==> IsWord(InstallName(parse, packages[k]))
    ensures Split(RemoveCommand(RemoveList(parse, packages)))
         == ["yum", "remove", "-y"] + RemoveList(parse, packages)
    ensures Split(InstallCommand(InstallList(parse, packages)))
         == ["yum", "install", "-y"] + InstallList(parse, packages)
  {
    var rm, inst := RemoveList(parse, packages), InstallList(parse, packages);
    assert IsWord("remove") && IsWord("install");
    SplitYumCommand("remove", Join(rm, " "));
    SplitJoin(rm);
    SplitYumCommand("install", Join(inst, " "));
    SplitJoin(inst);
  }

  /** `RpmCoverageEnv.prepare_env(packages)`: builds both lists, runs `yum remove`, and runs
      `yum install` only when the removal succeeded. */
  method PrepareRpmEnv(h: Machine, parse: string -> Result<PackageId>, packages: seq<string>)
    returns (s: Status)
    modifies h`log
    ensures var remove := Run(RemoveCommand(RemoveList(parse, packages)));
            var install := Run(InstallCommand(InstallList(parse, packages)));
            if h.shell(|old(h.log)|, remove).Err? then
              h.log == old(h.log) + [remove] && s.Failed?
            else
              h.log == old(h.log) + [remove, install]
              && (s.Done? <==> h.shell(|old(h.log)| + 1, install).Ok?)
  {
    var rmList: seq<string> := [];
    var installList: seq<string> := [];
    var i := 0;
    while i < |packages|
      invariant 0 <= i <= |packages| && |rmList| == i && |installList| == i
      invariant forall k :: 0 <= k < i ==> rmList[k] == RemoveName(parse, packages[k])
      invariant forall k :: 0 <= k < i ==> installList[k] == InstallName(parse, packages[k])
    {
      var p := parse(packages[i]);
      if p.Ok? {
        rmList := rmList + [p.value.name];
        installList := installList + [p.value.name + "-" + p.value.version + "-" + p.value.release];
      } else {
        rmList := rmList + [packages[i]];
        installList := installList + [packages[i]];
      }
      i := i + 1;
    }
    assert rmList == RemoveList(parse, packages);
    assert installList == InstallList(parse, packages);
    var r := h.RunCmd(RemoveCommand(rmList));
    if r.Err? {
      return Failed(r.reason);
    }
    r := h.RunCmd(InstallCommand(installList));
    s := if r.Ok? then Done else Failed(r.reason);
  }

  // ---------------------------------------------------------------------------------------------
  // Rpm2cpioCoverageEnv

  function DownloadCommand(package: string): string {
    "yumdownloader -q --urls " + package
  }

  /** `wget` of the URL `yumdownloader` printed, without its last character (the newline). */
  function FetchCommand(out: string): string {
    "wget " + DropLast(out)
  }

  /** The external steps of unpacking `package` in `dir`, issued at log position `at` onwards:
      each runs only when the one before succeeded. */
  function ArchiveSteps(shell: (nat, Effect) -> Result<string>, at: nat, package: string, dir: string)
    : seq<Effect>
  {
    var download := Run(DownloadCommand(package));
    var got := shell(at, download);
    if got.Err? then [download]
    else
      var fetch := Run(FetchCommand(got.value));
      if shell(at + 1, fetch).Err? then [download, fetch] else [download, fetch, Unpack(dir)]
  }

  /** Every step of the unpacking succeeded. */
  predicate ArchiveUnpacked(shell: (nat, Effect) -> Result<string>, at: nat, package: string, dir: string) {
    |ArchiveSteps(shell, at, package, dir)| == 3 && shell(at + 2, Unpack(dir)).Ok?
  }

  /** `Rpm2cpioCoverageEnv.prepare_env(packages)`: more than one package is refused, and an empty
      list fails on `packages[0]`, both before a temporary directory exists. Otherwise the package
      is downloaded and unpacked in a fresh directory `dir`, which is returned; the working
      directory is restored on every path, and any failure removes `dir` again. */
  method PrepareArchiveEnv(h: Machine, packages: seq<string>) returns (r: Result<string>, dir: string)
    modifies h`trees, h`log, h`cwd
    ensures h.cwd == old(h.cwd)
    ensures |packages| != 1 ==> r.Err? && h.trees == old(h.trees) && h.log == old(h.log)
    ensures |packages| == 1 ==>
              dir !in old(h.trees) && dir !in h.files
              && h.log == old(h.log) + ArchiveSteps(h.shell, |old(h.log)|, packages[0], dir)
              && (r.Ok? <==> ArchiveUnpacked(h.shell, |old(h.log)|, packages[0], dir))
    ensures r.Ok? ==>
              r.value == dir
              && h.trees == old(h.trees)[dir := Unpacked(DropLast(h.shell(|old(h.log)|, Run(DownloadCommand(packages[0]))).value))]
    ensures r.Err? ==> h.trees == old(h.trees)
  {
    dir := "";
    if |packages| > 1 {
      return Err("Not support more than one package"), dir;
    }
    if |packages| == 0 {
      return Err("list index out of range"), dir;
    }
    r, dir := UnpackPackage(h, packages[0]);
  }

  /** The body of `prepare_env` for one package. */
  method UnpackPackage(h: Machine, package: string) returns (r: Result<string>, dir: string)
    modifies h`trees, h`log, h`cwd
    ensures h.cwd == old(h.cwd)
    ensures dir !in old(h.trees) && dir !in h.files
    ensures h.log == old(h.log) + ArchiveSteps(h.shell, |old(h.log)|, package, dir)
    ensures r.Ok? <==> ArchiveUnpacked(h.shell, |old(h.log)|, package, dir)
    ensures r.Ok? ==>
              r.value == dir
              && h.trees == old(h.trees)[dir := Unpacked(DropLast(h.shell(|old(h.log)|, Run(DownloadCommand(package))).value))]
    ensures r.Err? ==> h.trees == old(h.trees)
  {
    dir := h.MkdTemp();
    var out := h.RunCmd(DownloadCommand(package));
    if out.Err? {
      var _ := h.RmTree(dir);
      return Err(out.reason), dir;
    }
    r := FetchAndUnpack(h, dir, out.value);
  }

  /** Inside `dir`, `wget` of the URL and the unpacking; the working directory is restored, and a
      failure removes `dir`. */
  method FetchAndUnpack(h: Machine, dir: string, url: string) returns (r: Result<string>)
    requires dir in h.trees
    modifies h`trees, h`log, h`cwd
    ensures h.cwd == old(h.cwd)
    ensures var fetch := Run(FetchCommand(url));
            if h.shell(|old(h.log)|, fetch).Err? then h.log == old(h.log) + [fetch] && r.Err?
            else h.log == old(h.log) + [fetch, Unpack(dir)]
                 && (r.Ok? <==> h.shell(|old(h.log)| + 1, Unpack(dir)).Ok?)
    ensures r.Ok? ==> r.value == dir && h.trees == old(h.trees)[dir := Unpacked(DropLast(url))]
    ensures r.Err? ==> h.trees == old(h.trees) - {dir}
  {
    var oldPath := h.cwd;
    h.ChDir(dir);
    var fetched := h.RunCmd(FetchCommand(url));
    if fetched.Err? {
      h.ChDir(oldPath);
      var _ := h.RmTree(dir);
      return Err(fetched.reason);
    }
    var unpacked := h.Perform(Unpack(dir));
    h.ChDir(oldPath);
    if unpacked.Err? {
      var _ := h.RmTree(dir);
      return Err(unpacked.reason);
    }
    h.trees := h.trees[dir := Unpacked(DropLast(url))];
    r := Ok(dir);
  }

  // ---------------------------------------------------------------------------------------------
  // prepare_git_repo and GitCoverageEnv

  /** `git --git-dir <dir>/.git --work-tree <dir>`, the start of every git command on a tree. */
  function GitOn(dir: string): string {
    "git --git-dir " + PathJoin(dir, ".git") + " --work-tree " + dir
  }

  /** The command that brings the mirror at `base` up to date: a pull when something exists
      there, else a clone of `repo`. */
  function MirrorCommand(repo: string, base: string, present: bool): string {
    if present then GitOn(base) + " pull" else "git clone " + repo + " " + base
  }

  /** `git <sub> <flag> <arg>` on the working copy's own git directory and work tree. */
  function GitAction(work: string, sub: string, flag: string, arg: string): string {
    GitOn(work) + " " + sub + " " + flag + " " + arg
  }

  function CheckoutCommand(work: string, commit: string): string {
    GitAction(work, "checkout", "-f", commit)
  }

  /** The trees after the mirror command succeeded: a pulled tree remembers its old history, a
      cloned one its repository. A pull over a plain file leaves the trees as they were. */
  function Mirrored(trees: map<string, Tree>, files: map<string, string>, repo: string, base: string)
    : map<string, Tree>
  {
    if base in trees then trees[base := Pull(trees[base])]
    else if base in files then trees
    else trees[base := Clone(repo)]
  }

  /** What `prepare_git_repo` leaves behind: the trees, the steps it issued, and whether it
      completed without raising. */
  datatype Outcome = Outcome(trees: map<string, Tree>, steps: seq<Effect>, ok: bool)

  /** The outcome of `prepare_git_repo(repo, base, work, commit)` issued at log position `at`:
      the mirror is pulled or cloned, then the working copy is made from it. */
  function GitRepo(shell: (nat, Effect) -> Result<string>, at: nat, files: map<string, string>,
                   trees: map<string, Tree>, repo: string, base: string, work: string, commit: string)
    : Outcome
  {
    var mirror := Run(MirrorCommand(repo, base, base in trees || base in files));
    if shell(at, mirror).Err? then Outcome(trees, [mirror], false)
    else WorkingCopy(shell, at + 1, files, Mirrored(trees, files, repo, base), base, work, commit, [mirror])
  }

  /** The rest of `prepare_git_repo` once the mirror is up to date and `steps` were issued: the
      working copy is removed when something exists there, the mirror is copied to it, and a
      non-empty `commit` is checked out with force at log position `at`. */
  function WorkingCopy(shell: (nat, Effect) -> Result<string>, at: nat, files: map<string, string>,
                       trees: map<string, Tree>, base: string, work: string, commit: string,
                       steps: seq<Effect>)
    : Outcome
  {
    if work in files && work !in trees then Outcome(trees, steps, false)
    else
      var cleared := trees - {work};
      if base !in cleared || work in files then Outcome(cleared, steps, false)
      else
        var copied := cleared[work := cleared[base]];
        if commit == "" then Outcome(copied, steps, true)
        else
          var checkout := Run(CheckoutCommand(work, commit));
          if shell(at, checkout).Err? then Outcome(copied, steps + [checkout], false)
          else Outcome(copied[work := Checkout(copied[base], commit)], steps + [checkout], true)
  }

  /** A completed `prepare_git_repo` leaves the mirror pulled or freshly cloned, a working copy
      that is a copy of the mirror (checked out at `commit` when one is given), and every other
      tree as it was. The mirror and the working copy are different paths. */
  lemma GitRepoWorkingCopy(shell: (nat, Effect) -> Result<string>, at: nat, files: map<string, string>,
                           trees: map<string, Tree>, repo: string, base: string, work: string, commit: string)
    requires GitRepo(shell, at, files, trees, repo, base, work, commit).ok
    ensures var o := GitRepo(shell, at, files, trees, repo, base, work, commit);
            base != work && base in o.trees && work in o.trees
            && o.trees[base] == (if base in trees then Pull(trees[base]) else Clone(repo))
            && o.trees[work] == (if commit == "" then o.trees[base] else Checkout(o.trees[base], commit))
            && forall p :: p != base && p != work ==>
                 (p in o.trees <==> p in trees) && (p in trees ==> o.trees[p] == trees[p])
  {
    var o := GitRepo(shell, at, files, trees, repo, base, work, commit);
    assert base !in files || base in trees;
  }

  /** A failed pull or clone changes no tree and issues nothing more. */
  lemma GitRepoMirrorFails(shell: (nat, Effect) -> Result<string>, at: nat, files: map<string, string>,
                           trees: map<string, Tree>, repo: string, base: string, work: string, commit: string)
    requires shell(at, Run(MirrorCommand(repo, base, base in trees || base in files))).Err?
    ensures var o := GitRepo(shell, at, files, trees, repo, base, work, commit);
            !o.ok && o.trees == trees && |o.steps| == 1
  {
  }

  lemma SplitGitDir(gitDir: string)
    requires IsWord(gitDir)
    ensures Split("git --git-dir " + gitDir) == ["git", "--git-dir", gitDir]
  {
    assert "git --git-dir " + gitDir == "git" + " " + "--git-dir" + " " + gitDir;
    SplitWord("git");
    SplitAppendTwo("git", "--git-dir", gitDir);
  }

  lemma SplitWorkTree(x: string, dir: string)
    requires IsWord(dir)
    ensures Split(x + " --work-tree " + dir) == Split(x) + ["--work-tree", dir]
  {
    assert x + " --work-tree " + dir == x + " " + "--work-tree" + " " + dir;
    SplitAppendTwo(x, "--work-tree", dir);
  }

  lemma SplitGitOn(dir: string)
    requires IsWord(dir)
    ensures Split(GitOn(dir)) == ["git", "--git-dir", PathJoin(dir, ".git"), "--work-tree", dir]
  {
    var g := PathJoin(dir, ".git");
    PathJoinWord(dir, ".git");
    SplitGitDir(g);
    SplitWorkTree("git --git-dir " + g, dir);
  }

  /** Joining two words gives a word. */
  lemma PathJoinWord(a: string, b: string)
    requires IsWord(a) && IsWord(b)
    ensures IsWord(PathJoin(a, b))
  {
    var p := PathJoin(a, b);
    if !(b[0] == '/') && a[|a| - 1] != '/' {
      assert p == a + "/" + b;
      forall i | 0 <= i < |p|
        ensures !IsSpace(p[i])
      {
        if i < |a| {
          assert p[i] == a[i];
        } else if i > |a| {
          assert p[i] == b[i - |a| - 1];
        }
      }
    } else if !(b[0] == '/') {
      assert p == a + b;
      forall i | 0 <= i < |p|
        ensures !IsSpace(p[i])
      {
        if i < |a| {
          assert p[i] == a[i];
        } else {
          assert p[i] == b[i - |a|];
        }
      }
    }
  }

  lemma SplitPull(x: string)
    ensures Split(x + " pull") == Split(x) + ["pull"]
  {
    assert x + " pull" == x + " " + "pull";
    SplitAppendWord(x, "pull");
  }

  lemma SplitClone(repo: string, base: string)
    requires IsWord(repo) && IsWord(base)
    ensures Split("git clone " + repo + " " + base) == ["git", "clone", repo, base]
  {
    var x := "git" + " " + "clone";
    assert "git clone " == x + " ";
    assert "git clone " + repo + " " + base == x + " " + repo + " " + base;
    SplitWord("git");
    SplitAppendThree("git", "clone", repo, base);
  }

  /** The arguments git receives: a pull on the mirror's own git directory and work tree, or a
      clone of the repository into the mirror's path. */
  lemma MirrorArgs(repo: string, base: string, present: bool)
    requires IsWord(repo) && IsWord(base)
    ensures present ==>
              Split(MirrorCommand(repo, base, present))
              == ["git", "--git-dir", PathJoin(base, ".git"), "--work-tree", base, "pull"]
    ensures !present ==> Split(MirrorCommand(repo, base, present)) == ["git", "clone", repo, base]
  {
    if present {
      SplitGitOn(base);
      SplitPull(GitOn(base));
    } else {
      SplitClone(repo, base);
    }
  }

  /** The forced checkout acts on the working copy's own git directory. */
  lemma CheckoutArgs(work: string, commit: string)
    requires IsWord(work) && IsWord(commit)
    ensures Split(CheckoutCommand(work, commit))
         == ["git", "--git-dir", PathJoin(work, ".git"), "--work-tree", work, "checkout", "-f", commit]
  {
    SplitGitOn(work);
    assert IsWord("checkout") && IsWord("-f");
    SplitAppendThree(GitOn(work), "checkout", "-f", commit);
  }

  /** `prepare_git_repo(git_repo, base_dir, work_dir, commit)`; an empty `commit` stands for
      `None`. */
  method PrepareGitRepo(h: Machine, repo: string, base: string, work: string, commit: string)
    returns (s: Status)
    modifies h`log, h`trees
    ensures var o := GitRepo(h.shell, |old(h.log)|, h.files, old(h.trees), repo, base, work, commit);
            h.trees == o.trees && h.log == old(h.log) + o.steps && (s.Done? <==> o.ok)
  {
    var present := h.Exists(base);
    var mirror := MirrorCommand(repo, base, present);
    var r := h.RunCmd(mirror);
    if r.Err? {
      return Failed(r.reason);
    }
    if base in h.trees {
      h.trees := h.trees[base := Pull(h.trees[base])];
    } else if base !in h.files {
      h.trees := h.trees[base := Clone(repo)];
    }
    s := MakeWorkingCopy(h, base, work, commit, [Run(mirror)]);
  }

  /** The part of `prepare_git_repo` after the mirror command: removes what exists at `work`,
      copies the mirror there and checks out `commit` when it is not empty. `steps` are the
      steps issued before. */
  method MakeWorkingCopy(h: Machine, base: string, work: string, commit: string, ghost steps: seq<Effect>)
    returns (s: Status)
    modifies h`log, h`trees
    ensures var o := WorkingCopy(h.shell, |old(h.log)|, h.files, old(h.trees), base, work, commit, steps);
            h.trees == o.trees && old(h.log) + o.steps[|steps|..] == h.log && (s.Done? <==> o.ok)
  {
    var workExists := h.Exists(work);
    if workExists {
      s := h.RmTree(work);
      if s.Failed? {
        return;
      }
    } else {
      assert h.trees == h.trees - {work};
    }
    s := h.CopyTree(base, work);
    if s.Failed? || commit == "" {
      return;
    }
    var r := h.RunCmd(CheckoutCommand(work, commit));
    if r.Err? {
      return Failed(r.reason);
    }
    h.trees := h.trees[work := Checkout(h.trees[work], commit)];
  }

  /** The directory under which the mirrors are kept unless another is given. */
  const DefaultBaseDir := "/usr/share/coveragepool/"

  /** `GitCoverageEnv.prepare_env(name, work_dir, git_repo, git_tag, base_dir)`: the mirror of
      project `name` lives in `base_dir/name`. */
  method GitPrepareEnv(h: Machine, name: string, work: string, repo: string, tag: string, baseDir: string)
    returns (s: Status)
    modifies h`log, h`trees
    ensures var o := GitRepo(h.shell, |old(h.log)|, h.files, old(h.trees), repo,
                             PathJoin(baseDir, name), work, tag);
            h.trees == o.trees && h.log == old(h.log) + o.steps && (s.Done? <==> o.ok)
  {
    s := PrepareGitRepo(h, repo, PathJoin(baseDir, name), work, tag);
  }

  function DiffCommand(work: string, srcTag: string, tgtTag: string): string {
    GitOn(work) + " diff " + srcTag + " " + tgtTag
  }

  /** `GitCoverageEnv.get_git_diff(work_dir, src_tag, tgt_tag)`: the diff between two tags,
      saved in a new temporary file whose path is returned. */
  method GetGitDiff(h: Machine, work: string, srcTag: string, tgtTag: string) returns (r: Result<string>)
    modifies h`log, h`files
    ensures h.log == old(h.log) + [Run(DiffCommand(work, srcTag, tgtTag))]
    ensures var out := h.shell(|old(h.log)|, Run(DiffCommand(work, srcTag, tgtTag)));
            (r.Ok? <==> out.Ok?)
            && (r.Ok? ==> r.value !in old(h.files) && h.files == old(h.files)[r.value := out.value])
            && (r.Err? ==> h.files == old(h.files))
  {
    var out := h.RunCmd(DiffCommand(work, srcTag, tgtTag));
    if out.Err? {
      return Err(out.reason);
    }
    var f := h.MkTempFile(out.value);
    r := Ok(f);
  }

  // ---------------------------------------------------------------------------------------------
  // DistGitCoverageEnv

  predicate IsAsciiDigit(c: char) {
    '0' <= c <= '9'
  }

  /** Length of the leading run of ASCII digits. */
  function DigitRun(s: string): (n: nat)
    ensures n <= |s|
    ensures forall i :: 0 <= i < n ==> IsAsciiDigit(s[i])
    ensures n < |s| ==> !IsAsciiDigit(s[n])
    decreases |s|
  {
    if s == [] || !IsAsciiDigit(s[0]) then 0 else 1 + DigitRun(s[1..])
  }

  /** `re.match(r"^Patch([0-9]+): (.+)", line)`: the second group, the name of the patch file.
      The digits run as far as they go, and `.` stops at a newline, so the name is the rest of
      the line without its newline, and it may not be empty. */
  function PatchName(line: string): Option<string> {
    if IsPrefix("Patch", line) then NumberedName(line[5..]) else None
  }

  /** The match after `Patch`: one or more digits, then `: `, then the name. */
  function NumberedName(rest: string): Option<string> {
    var n := DigitRun(rest);
    if n > 0 && IsPrefix(": ", rest[n..]) then LineName(rest[n + 2..]) else None
  }

  /** `(.+)`: the longest non-empty run of characters other than a newline. */
  function LineName(tail: string): Option<string> {
    var m := RunBefore(tail, '\n');
    if m > 0 then Some(tail[..m]) else None
  }

  /** A `.spec` line naming patch number `n`. */
  function PatchLine(n: nat, name: string): string {
    "Patch" + Decimal(n) + ": " + name + "\n"
  }

  lemma DecimalDigits(n: nat)
    ensures |Decimal(n)| > 0
    ensures forall i :: 0 <= i < |Decimal(n)| ==> IsAsciiDigit(Decimal(n)[i])
  {
    var d := Decimal(n);
    forall i | 0 <= i < |d|
      ensures IsAsciiDigit(d[i])
    {
      assert IsDigitIn(d[i], 10);
    }
  }

  lemma {:induction false} DigitRunPrefix(d: string, rest: string)
    requires forall i :: 0 <= i < |d| ==> IsAsciiDigit(d[i])
    requires rest != [] && !IsAsciiDigit(rest[0])
    ensures DigitRun(d + rest) == |d|
    decreases |d|
  {
    if d == [] {
      assert d + rest == rest;
    } else {
      assert (d + rest)[1..] == d[1..] + rest;
      DigitRunPrefix(d[1..], rest);
    }
  }

  lemma LineNameOf(name: string)
    requires name != [] && forall i :: 0 <= i < |name| ==> name[i] != '\n'
    ensures LineName(name + "\n") == Some(name)
  {
    assert name + "\n" == name + ['\n'] + [];
    RunBeforeStop(name, '\n', []);
    assert (name + "\n")[..|name|] == name;
  }

  lemma NumberedNameOf(d: string, tail: string)
    requires d != [] && forall i :: 0 <= i < |d| ==> IsAsciiDigit(d[i])
    ensures NumberedName(d + (": " + tail)) == LineName(tail)
  {
    var rest := d + (": " + tail);
    DigitRunPrefix(d, ": " + tail);
    assert rest[|d|..] == ": " + tail;
    assert rest[|d| + 2..] == tail;
  }

  /** The line written for patch `n` gives back its name: the regex and `PatchLine` are inverse
      on names that are non-empty and have no newline. */
  lemma PatchNameOfLine(n: nat, name: string)
    requires name != [] && forall i :: 0 <= i < |name| ==> name[i] != '\n'
    ensures PatchName(PatchLine(n, name)) == Some(name)
  {
    var d := Decimal(n);
    var line := PatchLine(n, name);
    DecimalDigits(n);
    assert line == "Patch" + (d + (": " + (name + "\n")));
    assert line[5..] == d + (": " + (name + "\n"));
    NumberedNameOf(d, name + "\n");
    LineNameOf(name);
  }

  /** What `(.+)` matched: the name starts the tail and runs up to its end or its newline. */
  lemma LineNameMatch(tail: string)
    requires LineName(tail).Some?
    ensures var name := LineName(tail).value;
            name != [] && (forall i :: 0 <= i < |name| ==> name[i] != '\n')
            && IsPrefix(name, tail) && (|tail| > |name| ==> tail[|name|] == '\n')
  {
  }

  /** What `([0-9]+): ` matched: a non-empty run of digits and `: `, followed by the name. */
  lemma NumberedNameMatch(rest: string)
    requires NumberedName(rest).Some?
    ensures var n := DigitRun(rest);
            0 < n && n + 2 <= |rest| && rest == rest[..n] + ": " + rest[n + 2..]
            && NumberedName(rest) == LineName(rest[n + 2..])
  {
    var n := DigitRun(rest);
    assert IsPrefix(": ", rest[n..]) && LineName(rest[n + 2..]).Some?;
    SplitAround(rest, n, ": ");
  }

  lemma SplitAround(s: string, n: nat, mid: string)
    requires n <= |s| && IsPrefix(mid, s[n..])
    ensures n + |mid| <= |s| && s == s[..n] + mid + s[n + |mid|..]
  {
    assert s[n..] == mid + s[n + |mid|..];
    assert s == s[..n] + s[n..];
  }

  /** The text a `.spec` line starts with when it names patch `d` as `name`. */
  function PatchHead(d: string, name: string): string {
    "Patch" + d + ": " + name
  }

  /** Conversely, a name the regex yields is non-empty, has no newline, and follows
      `Patch<digits>: ` at the start of the line, running up to the line's end or its newline. */
  lemma PatchNameMatch(line: string)
    requires PatchName(line).Some?
    ensures var name := PatchName(line).value;
            name != [] && (forall i :: 0 <= i < |name| ==> name[i] != '\n')
            && exists d :: d != [] && (forall i :: 0 <= i < |d| ==> IsAsciiDigit(d[i]))
                 && IsPrefix(PatchHead(d, name), line)
                 && (|line| > |PatchHead(d, name)| ==> line[|PatchHead(d, name)|] == '\n')
  {
    var rest := line[5..];
    NumberedNameMatch(rest);
    var n := DigitRun(rest);
    var d := rest[..n];
    var tail := rest[n + 2..];
    LineNameMatch(tail);
    var name := LineName(tail).value;
    assert name == PatchName(line).value;
    PatchRegroup(line, d, tail);
    HeadThrough(d, name, tail, line);
    assert d != [] && forall i :: 0 <= i < |d| ==> IsAsciiDigit(d[i]);
    assert IsPrefix(PatchHead(d, name), line)
           && (|line| > |PatchHead(d, name)| ==> line[|PatchHead(d, name)|] == '\n');
  }

  /** A line that starts with `Patch` followed by `d: tail`. */
  lemma PatchRegroup(line: string, d: string, tail: string)
    requires IsPrefix("Patch", line) && line[5..] == d + ": " + tail
    ensures line == "Patch" + d + ": " + tail
  {
    assert line == line[..5] + line[5..];
  }

  /** A prefix of the tail extends to a prefix of the whole line. */
  lemma HeadThrough(d: string, name: string, tail: string, line: string)
    requires line == "Patch" + d + ": " + tail && IsPrefix(name, tail)
    ensures IsPrefix(PatchHead(d, name), line)
    ensures |line| > |PatchHead(d, name)| ==> line[|PatchHead(d, name)|] == tail[|name|]
  {
    var head := "Patch" + d + ": ";
    assert line == head + tail;
    assert PatchHead(d, name) == head + name;
    assert line[..|head + name|] == head + tail[..|name|];
  }

  /** What the regex finds on each line of a `.spec` file. */
  function Named(lines: seq<string>): (ms: seq<Option<string>>)
    ensures |ms| == |lines| && forall k :: 0 <= k < |lines| ==> ms[k] == PatchName(lines[k])
  {
    seq(|lines|, k requires 0 <= k < |lines| => PatchName(lines[k]))
  }

  /** The names found, in order. */
  function Somes(ms: seq<Option<string>>): seq<string>
    decreases |ms|
  {
    if ms == [] then []
    else Somes(ms[..|ms| - 1]) + (if ms[|ms| - 1].Some? then [ms[|ms| - 1].value] else [])
  }

  /** The patch files a `.spec` file's lines name, in file order. */
  function Patches(lines: seq<string>): seq<string> {
    Somes(Named(lines))
  }

  lemma {:induction false} SomesAll(names: seq<string>)
    ensures Somes(seq(|names|, k requires 0 <= k < |names| => Some(names[k]))) == names
    decreases |names|
  {
    if names != [] {
      var j := |names| - 1;
      var ms := seq(|names|, k requires 0 <= k < |names| => Some(names[k]));
      assert ms[..j] == seq(j, k requires 0 <= k < j => Some(names[..j][k]));
      SomesAll(names[..j]);
      assert names == names[..j] + [names[j]];
    }
  }

  /** Every patch line contributes exactly its name, in the order of the lines. */
  lemma PatchesOfLines(ns: seq<nat>, names: seq<string>)
    requires |ns| == |names|
    requires forall k :: 0 <= k < |names| ==> names[k] != [] && forall i :: 0 <= i < |names[k]| ==> names[k][i] != '\n'
    ensures Patches(seq(|ns|, k requires 0 <= k < |ns| => PatchLine(ns[k], names[k]))) == names
  {
    var lines := seq(|ns|, k requires 0 <= k < |ns| => PatchLine(ns[k], names[k]));
    forall k | 0 <= k < |ns|
      ensures Named(lines)[k] == Some(names[k])
    {
      PatchNameOfLine(ns[k], names[k]);
    }
    assert Named(lines) == seq(|names|, k requires 0 <= k < |names| => Some(names[k]));
    SomesAll(names);
  }

  /** The `git am -3` of one patch file on the working copy. */
  function PatchCommand(work: string, patchFile: string): string {
    GitAction(work, "am", "-3", patchFile)
  }

  /** `git am` applies the patch file on the working copy's own git directory. */
  lemma PatchArgs(work: string, patchFile: string)
    requires IsWord(work) && IsWord(patchFile)
    ensures Split(PatchCommand(work, patchFile))
         == ["git", "--git-dir", PathJoin(work, ".git"), "--work-tree", work, "am", "-3", patchFile]
  {
    SplitGitOn(work);
    assert IsWord("am") && IsWord("-3");
    SplitAppendThree(GitOn(work), "am", "-3", patchFile);
  }

  /** The paths of the patch files in the dist-git working copy. */
  function PatchFiles(dist: string, patches: seq<string>): seq<string> {
    seq(|patches|, k requires 0 <= k < |patches| => PathJoin(dist, patches[k]))
  }

  /** The trees once a patch applied on the working copy: its history records the patch. */
  function AfterPatch(trees: map<string, Tree>, work: string, patchFile: string): map<string, Tree> {
    if work in trees then trees[work := Patched(trees[work], patchFile)] else trees
  }

  /** The outcome of `git am -3` of each patch file in order from log position `at`: a patch
      that fails ends the run, a patch that applies is recorded before the next one runs. */
  function AmOutcome(shell: (nat, Effect) -> Result<string>, at: nat, trees: map<string, Tree>,
                     work: string, patchFiles: seq<string>): Outcome
    decreases |patchFiles|
  {
    if patchFiles == [] then Outcome(trees, [], true)
    else
      var am := Run(PatchCommand(work, patchFiles[0]));
      if shell(at, am).Err? then Outcome(trees, [am], false)
      else
        var rest := AmOutcome(shell, at + 1, AfterPatch(trees, work, patchFiles[0]), work, patchFiles[1..]);
        Outcome(rest.trees, [am] + rest.steps, rest.ok)
  }

  /** The outcome `o` after `steps` were already issued. */
  function After(steps: seq<Effect>, o: Outcome): Outcome {
    Outcome(o.trees, steps + o.steps, o.ok)
  }

  /** The working copy's history after the given patch files were applied, in order. */
  function ApplyAll(t: Tree, patchFiles: seq<string>): Tree
    decreases |patchFiles|
  {
    if patchFiles == [] then t else ApplyAll(Patched(t, patchFiles[0]), patchFiles[1..])
  }

  /** The trees after the given patch files were applied to the working copy, when there is one. */
  function PatchedTrees(trees: map<string, Tree>, work: string, patchFiles: seq<string>): map<string, Tree> {
    if work in trees then trees[work := ApplyAll(trees[work], patchFiles)] else trees
  }

  /** A run of `git am -3` issues the patches' commands in order, from the first, and no more
      than there are patches. */
  lemma {:induction false} AmOutcomeSteps(shell: (nat, Effect) -> Result<string>, at: nat,
                                          trees: map<string, Tree>, work: string, patchFiles: seq<string>)
    ensures var o := AmOutcome(shell, at, trees, work, patchFiles);
            |o.steps| <= |patchFiles|
            && forall k :: 0 <= k < |o.steps| ==> o.steps[k] == Run(PatchCommand(work, patchFiles[k]))
    decreases |patchFiles|
  {
    if patchFiles != [] && shell(at, Run(PatchCommand(work, patchFiles[0]))).Ok? {
      var t1 := AfterPatch(trees, work, patchFiles[0]);
      AmOutcomeSteps(shell, at + 1, t1, work, patchFiles[1..]);
    }
  }

  /** The first `n` of `steps`, issued from log position `at` on, succeeded. */
  predicate OkUpTo(shell: (nat, Effect) -> Result<string>, at: nat, steps: seq<Effect>, n: nat)
    requires n <= |steps|
  {
    forall k :: 0 <= k < n ==> shell(at + k, steps[k]).Ok?
  }

  lemma OkUpToCons(shell: (nat, Effect) -> Result<string>, at: nat, e: Effect, steps: seq<Effect>, m: nat)
    requires shell(at, e).Ok? && m <= |steps|
    ensures OkUpTo(shell, at, [e] + steps, m + 1) <==> OkUpTo(shell, at + 1, steps, m)
  {
    var all := [e] + steps;
    if OkUpTo(shell, at + 1, steps, m) {
      forall k | 0 <= k < m + 1
        ensures shell(at + k, all[k]).Ok?
      {
        if k > 0 {
          assert shell(at + 1 + (k - 1), steps[k - 1]).Ok?;
        }
      }
    }
    if OkUpTo(shell, at, all, m + 1) {
      forall k | 0 <= k < m
        ensures shell(at + 1 + k, steps[k]).Ok?
      {
        assert shell(at + (k + 1), all[k + 1]).Ok?;
      }
    }
  }

  /** Each command but the last succeeded, and the run completes exactly when every patch was
      issued and every command succeeded. */
  lemma {:induction false} AmOutcomeSucceeds(shell: (nat, Effect) -> Result<string>, at: nat,
                                             trees: map<string, Tree>, work: string, patchFiles: seq<string>)
    ensures var o := AmOutcome(shell, at, trees, work, patchFiles);
            var n := |o.steps|;
            (1 <= n ==> OkUpTo(shell, at, o.steps, n - 1))
            && (o.ok <==> n == |patchFiles| && OkUpTo(shell, at, o.steps, n))
    decreases |patchFiles|
  {
    if patchFiles != [] {
      var am := Run(PatchCommand(work, patchFiles[0]));
      if shell(at, am).Ok? {
        var t1 := AfterPatch(trees, work, patchFiles[0]);
        var rest := AmOutcome(shell, at + 1, t1, work, patchFiles[1..]);
        var o := AmOutcome(shell, at, trees, work, patchFiles);
        assert o.steps == [am] + rest.steps && o.ok == rest.ok;
        AmOutcomeSucceeds(shell, at + 1, t1, work, patchFiles[1..]);
        AmOutcomeSteps(shell, at + 1, t1, work, patchFiles[1..]);
        OkUpToStep(shell, at, am, rest.steps, rest.ok, |patchFiles|);
      } else {
        var o := AmOutcome(shell, at, trees, work, patchFiles);
        assert o.steps == [am] && !o.ok;
        assert shell(at + 0, o.steps[0]).Err?;
      }
    }
  }

  /** A run that does not complete stops at a command that failed. */
  /** One successful step in front of a run of steps keeps what the run says about its steps. */
  lemma OkUpToStep(shell: (nat, Effect) -> Result<string>, at: nat, e: Effect, steps: seq<Effect>,
                   ok: bool, total: nat)
    requires shell(at, e).Ok?
    requires 1 <= |steps| ==> OkUpTo(shell, at + 1, steps, |steps| - 1)
    requires ok <==> |steps| + 1 == total && OkUpTo(shell, at + 1, steps, |steps|)
    ensures OkUpTo(shell, at, [e] + steps, |steps|)
    ensures ok <==> |steps| + 1 == total && OkUpTo(shell, at, [e] + steps, |steps| + 1)
  {
    if 1 <= |steps| {
      OkUpToCons(shell, at, e, steps, |steps| - 1);
    }
    OkUpToCons(shell, at, e, steps, |steps|);
  }

  lemma {:induction false} AmOutcomeFails(shell: (nat, Effect) -> Result<string>, at: nat,
                                          trees: map<string, Tree>, work: string, patchFiles: seq<string>)
    ensures var o := AmOutcome(shell, at, trees, work, patchFiles);
            var n := |o.steps|;
            !o.ok ==> 1 <= n && shell(at + n - 1, o.steps[n - 1]).Err?
    decreases |patchFiles|
  {
    if patchFiles != [] {
      var am := Run(PatchCommand(work, patchFiles[0]));
      var o := AmOutcome(shell, at, trees, work, patchFiles);
      if shell(at, am).Ok? {
        var t1 := AfterPatch(trees, work, patchFiles[0]);
        var rest := AmOutcome(shell, at + 1, t1, work, patchFiles[1..]);
        AmOutcomeFails(shell, at + 1, t1, work, patchFiles[1..]);
        var n := |rest.steps|;
        assert o.steps == [am] + rest.steps && o.ok == rest.ok;
        if !rest.ok {
          assert o.steps[|o.steps| - 1] == rest.steps[n - 1];
          assert at + |o.steps| - 1 == at + 1 + n - 1;
        }
      } else {
        assert o.steps == [am] && !o.ok;
        assert shell(at + 1 - 1, o.steps[0]).Err?;
      }
    }
  }

  /** The working copy records, in order, every patch that applied, and nothing else changes. */
  lemma {:induction false} AmOutcomeTrees(shell: (nat, Effect) -> Result<string>, at: nat,
                                          trees: map<string, Tree>, work: string, patchFiles: seq<string>)
    ensures var o := AmOutcome(shell, at, trees, work, patchFiles);
            var applied := if o.ok then |o.steps| else |o.steps| - 1;
            0 <= applied <= |patchFiles| && o.trees == PatchedTrees(trees, work, patchFiles[..applied])
    decreases |patchFiles|
  {
    if patchFiles == [] || shell(at, Run(PatchCommand(work, patchFiles[0]))).Err? {
      assert patchFiles[..0] == [];
    } else {
      var t1 := AfterPatch(trees, work, patchFiles[0]);
      var rest := AmOutcome(shell, at + 1, t1, work, patchFiles[1..]);
      AmOutcomeTrees(shell, at + 1, t1, work, patchFiles[1..]);
      var m := if rest.ok then |rest.steps| else |rest.steps| - 1;
      assert patchFiles[..m + 1][1..] == patchFiles[1..][..m];
    }
  }

  /** The outcome of `apply_patch(name, dist, work)` issued at log position `at`: the patches the
      `.spec` file names, in order, as `AmOutcome` runs them; an unreadable `.spec` file fails
      before any command. */
  function PatchOutcome(shell: (nat, Effect) -> Result<string>, treeFile: (Tree, string) -> Result<string>,
                        at: nat, trees: map<string, Tree>, name: string, dist: string, work: string): Outcome
  {
    var spec := if dist in trees then treeFile(trees[dist], name + ".spec") else Err("");
    if spec.Err? then Outcome(trees, [], false)
    else AmOutcome(shell, at, trees, work, PatchFiles(dist, Patches(SplitLines(spec.value))))
  }

  /** `DistGitCoverageEnv.apply_patch(name, dist_work_dir, work_dir)`: reads `<name>.spec` in the
      dist-git working copy and applies its patches. An unreadable `.spec` file raises before any
      command runs. */
  method ApplyPatch(h: Machine, name: string, dist: string, work: string) returns (s: Status)
    modifies h`log, h`trees
    ensures var o := PatchOutcome(h.shell, h.treeFile, |old(h.log)|, old(h.trees), name, dist, work);
            h.log == old(h.log) + o.steps && h.trees == o.trees && (s.Done? <==> o.ok)
  {
    var spec := h.ReadTreeFile(dist, name + ".spec");
    if spec.Err? {
      return Failed(spec.reason);
    }
    var lines := SplitLines(spec.value);
    var ms := seq(|lines|, k requires 0 <= k < |lines| => PatchName(lines[k]));
    assert ms == Named(lines);
    s := ApplyNamed(h, ms, dist, work);
  }

  /** The loop of `apply_patch` over the lines of the `.spec` file, given what the regex found on
      each: `git am -3` on the working copy for every `Patch<N>:` line, in file order, stopping at
      the first failure; each applied patch is recorded in the working copy's history. */
  method ApplyNamed(h: Machine, ms: seq<Option<string>>, dist: string, work: string) returns (s: Status)
    modifies h`log, h`trees
    ensures var o := AmOutcome(h.shell, |old(h.log)|, old(h.trees), work, PatchFiles(dist, Somes(ms)));
            h.log == old(h.log) + o.steps && h.trees == o.trees && (s.Done? <==> o.ok)
  {
    ghost var at := |h.log|;
    ghost var patchFiles := PatchFiles(dist, Somes(ms));
    ghost var o := AmOutcome(h.shell, at, h.trees, work, patchFiles);
    var i := 0;
    ghost var j: nat := 0;
    var failure: Option<string> := None;
    while i < |ms| && failure.None?
      invariant 0 <= i <= |ms|
      invariant failure.None? ==>
                  j == |Somes(ms[..i])| <= |patchFiles| && |h.log| >= at && h.log[..at] == old(h.log)
                  && o == After(h.log[at..], AmOutcome(h.shell, |h.log|, h.trees, work, patchFiles[j..]))
      invariant failure.Some? ==> h.log == old(h.log) + o.steps && h.trees == o.trees && !o.ok
    {
      failure, j := ApplyLine(h, ms, i, dist, work, at, old(h.log), o, j);
      i := i + 1;
    }
    if failure.Some? {
      s := Failed(failure.value);
    } else {
      assert ms[..i] == ms;
      assert patchFiles[j..] == [];
      assert h.log == old(h.log) + h.log[at..];
      s := Done;
    }
  }

  /** What `AmOutcome` does with its first patch, seen from the steps issued before it. */
  lemma AmOutcomeNext(shell: (nat, Effect) -> Result<string>, at: nat, trees: map<string, Tree>, work: string,
                      patchFiles: seq<string>, done: seq<Effect>)
    requires patchFiles != []
    ensures var am := Run(PatchCommand(work, patchFiles[0]));
            var o := After(done, AmOutcome(shell, at, trees, work, patchFiles));
            if shell(at, am).Ok? then
              o == After(done + [am], AmOutcome(shell, at + 1, AfterPatch(trees, work, patchFiles[0]), work,
                                                patchFiles[1..]))
            else o == Outcome(trees, done + [am], false)
  {
    var am := Run(PatchCommand(work, patchFiles[0]));
    if shell(at, am).Ok? {
      var rest := AmOutcome(shell, at + 1, AfterPatch(trees, work, patchFiles[0]), work, patchFiles[1..]);
      assert done + ([am] + rest.steps) == done + [am] + rest.steps;
    }
  }

  /** One line of the loop: nothing happens on a line without a patch; otherwise the patch it
      names is the `j`-th, and `git am -3` of it is the next command. */
  method ApplyLine(h: Machine, ms: seq<Option<string>>, i: nat, dist: string, work: string,
                   ghost at: nat, ghost log0: seq<Effect>, ghost o: Outcome, ghost j: nat)
    returns (failure: Option<string>, ghost j': nat)
    requires i < |ms| && j == |Somes(ms[..i])| <= |Somes(ms)|
    requires |h.log| >= at && h.log[..at] == log0
    requires o == After(h.log[at..], AmOutcome(h.shell, |h.log|, h.trees, work, PatchFiles(dist, Somes(ms))[j..]))
    modifies h`log, h`trees
    ensures failure.None? ==>
              j' == |Somes(ms[..i + 1])| <= |Somes(ms)| && |h.log| >= at && h.log[..at] == log0
              && o == After(h.log[at..], AmOutcome(h.shell, |h.log|, h.trees, work, PatchFiles(dist, Somes(ms))[j'..]))
    ensures failure.Some? ==> h.log == log0 + o.steps && h.trees == o.trees && !o.ok
  {
    NextPatch(ms, i);
    failure := None;
    j' := j;
    if ms[i].Some? {
      var patchFile := PathJoin(dist, ms[i].value);
      failure := ApplyNext(h, patchFile, work, PatchFiles(dist, Somes(ms)), j, at, log0, o);
      j' := j + 1;
    }
  }

  /** `git am -3` of the `j`-th patch file: on success the rest of the patches remain to be
      applied; on failure the machine is in the state the whole outcome describes. */
  method ApplyNext(h: Machine, patchFile: string, work: string, ghost patchFiles: seq<string>, ghost j: nat,
                   ghost at: nat, ghost log0: seq<Effect>, ghost o: Outcome)
    returns (failure: Option<string>)
    requires j < |patchFiles| && patchFiles[j] == patchFile
    requires |h.log| >= at && h.log[..at] == log0
    requires o == After(h.log[at..], AmOutcome(h.shell, |h.log|, h.trees, work, patchFiles[j..]))
    modifies h`log, h`trees
    ensures failure.None? ==>
              |h.log| >= at && h.log[..at] == log0
              && o == After(h.log[at..], AmOutcome(h.shell, |h.log|, h.trees, work, patchFiles[j + 1..]))
    ensures failure.Some? ==> h.log == log0 + o.steps && h.trees == o.trees && !o.ok
  {
    ghost var done, trees0, at0 := h.log[at..], h.trees, |h.log|;
    ghost var rest := patchFiles[j..];
    ghost var am := Run(PatchCommand(work, patchFile));
    assert rest[0] == patchFile && rest[1..] == patchFiles[j + 1..];
    var r := AmPatch(h, work, patchFile);
    assert h.log[at..] == done + [am];
    AmOutcomeNext(h.shell, at0, trees0, work, rest, done);
    failure := None;
    if r.Err? {
      failure := Some(r.reason);
      assert h.log == log0 + h.log[at..];
    } else {
      assert h.log[..at] == log0;
      assert h.shell(at0, am).Ok? && h.trees == AfterPatch(trees0, work, rest[0]);
      assert o == After(done + [am], AmOutcome(h.shell, at0 + 1, h.trees, work, rest[1..]));
    }
  }

  /** One `git am -3` of a patch file on the working copy; a patch that applies is recorded in
      the working copy's history. */
  method AmPatch(h: Machine, work: string, patchFile: string) returns (r: Result<string>)
    modifies h`log, h`trees
    ensures h.log == old(h.log) + [Run(PatchCommand(work, patchFile))]
    ensures r == h.shell(|old(h.log)|, Run(PatchCommand(work, patchFile)))
    ensures h.trees == if r.Ok? then AfterPatch(old(h.trees), work, patchFile) else old(h.trees)
  {
    r := h.RunCmd(PatchCommand(work, patchFile));
    if r.Ok? && work in h.trees {
      h.trees := h.trees[work := Patched(h.trees[work], patchFile)];
    }
  }

  /** The names found before line `i`, and what line `i` adds to them. */
  lemma NextPatch(ms: seq<Option<string>>, i: nat)
    requires i < |ms|
    ensures var j := |Somes(ms[..i])|;
            if ms[i].Some? then
              j < |Somes(ms)| && Somes(ms)[j] == ms[i].value && |Somes(ms[..i + 1])| == j + 1
            else |Somes(ms[..i + 1])| == j
  {
    assert ms[..i + 1][..i] == ms[..i];
    SomesPrefix(ms, i + 1);
  }

  lemma {:induction false} SomesPrefix(ms: seq<Option<string>>, i: nat)
    requires i <= |ms|
    ensures |Somes(ms[..i])| <= |Somes(ms)|
    ensures Somes(ms)[..|Somes(ms[..i])|] == Somes(ms[..i])
    decreases |ms| - i
  {
    if i < |ms| {
      SomesPrefix(ms[..|ms| - 1], i);
      assert ms[..|ms| - 1][..i] == ms[..i];
      assert ms[..|ms|] == ms;
    } else {
      assert ms[..i] == ms;
    }
  }

  /** A log extended twice is the first log extended by both parts at once. */
  lemma LogExtends(log0: seq<Effect>, steps1: seq<Effect>, log1: seq<Effect>, steps2: seq<Effect>, log2: seq<Effect>)
    requires log1 == log0 + steps1 && log2 == log1 + steps2
    ensures log2 == log0 + (steps1 + steps2)
  {
  }

  /** The outcome of `DistGitCoverageEnv.prepare_env` issued at log position `at`, when the
      packaging working copy is the new directory `dist`: the source repository at `tag` in
      `work`; when that succeeded, the packaging repository at `distTag` in `dist`; and when that
      succeeded too, the patches of the `.spec` file applied on `work`. */
  function DistGitOutcome(shell: (nat, Effect) -> Result<string>, treeFile: (Tree, string) -> Result<string>,
                          at: nat, files: map<string, string>, trees: map<string, Tree>, name: string,
                          work: string, repo: string, tag: string, distRepo: string, distTag: string,
                          baseDir: string, dist: string): Outcome
  {
    var o1 := GitRepo(shell, at, files, trees, repo, PathJoin(baseDir, name), work, tag);
    if !o1.ok then o1
    else After(o1.steps, DistAndPatchOutcome(shell, treeFile, at + |o1.steps|, files, o1.trees[dist := Fresh],
                                             name, work, distRepo, distTag, baseDir, dist))
  }

  /** The packaging repository checked out in `dist`, then the patches applied on `work`. */
  function DistAndPatchOutcome(shell: (nat, Effect) -> Result<string>, treeFile: (Tree, string) -> Result<string>,
                               at: nat, files: map<string, string>, trees: map<string, Tree>, name: string,
                               work: string, distRepo: string, distTag: string, baseDir: string,
                               dist: string): Outcome
  {
    var o2 := GitRepo(shell, at, files, trees, distRepo, PathJoin(baseDir, name + "-dist-git"), dist, distTag);
    if !o2.ok then o2
    else After(o2.steps, PatchOutcome(shell, treeFile, at + |o2.steps|, o2.trees, name, dist, work))
  }

  /** `DistGitCoverageEnv.prepare_env(name, work_dir, repo, tag, dist_repo, dist_tag, base_dir)`:
      `dist` is the new temporary directory for the packaging repository; it is made only once
      the source repository is ready, and is fresh then. */
  method DistGitPrepareEnv(h: Machine, name: string, work: string, repo: string, tag: string,
                           distRepo: string, distTag: string, baseDir: string)
    returns (s: Status, dist: string)
    modifies h`log, h`trees
    ensures var o := DistGitOutcome(h.shell, h.treeFile, |old(h.log)|, h.files, old(h.trees), name, work,
                                    repo, tag, distRepo, distTag, baseDir, dist);
            h.log == old(h.log) + o.steps && h.trees == o.trees && (s.Done? <==> o.ok)
    ensures var o1 := GitRepo(h.shell, |old(h.log)|, h.files, old(h.trees), repo, PathJoin(baseDir, name), work, tag);
            o1.ok ==> dist !in o1.trees && dist !in h.files
  {
    ghost var log0, trees0 := h.log, h.trees;
    ghost var o1 := GitRepo(h.shell, |log0|, h.files, trees0, repo, PathJoin(baseDir, name), work, tag);
    s := PrepareGitRepo(h, repo, PathJoin(baseDir, name), work, tag);
    if s.Failed? {
      dist := "";
      return;
    }
    ghost var log1 := h.log;
    assert o1.ok && log1 == log0 + o1.steps;
    dist := h.MkdTemp();
    assert h.trees == o1.trees[dist := Fresh] && h.log == log1;
    ghost var o2 := DistAndPatchOutcome(h.shell, h.treeFile, |log1|, h.files, h.trees, name, work,
                                        distRepo, distTag, baseDir, dist);
    assert DistGitOutcome(h.shell, h.treeFile, |log0|, h.files, trees0, name, work, repo, tag, distRepo, distTag,
                          baseDir, dist) == After(o1.steps, o2);
    s := PrepareDistAndPatch(h, name, work, dist, distRepo, distTag, baseDir);
    LogExtends(log0, o1.steps, log1, o2.steps, h.log);
  }

  /** The second half of `DistGitCoverageEnv.prepare_env`: the packaging tree in the new working
      copy `dist`, then its patches on `work` when that succeeded. */
  method PrepareDistAndPatch(h: Machine, name: string, work: string, dist: string, distRepo: string,
                             distTag: string, baseDir: string)
    returns (s: Status)
    modifies h`log, h`trees
    ensures var o := DistAndPatchOutcome(h.shell, h.treeFile, |old(h.log)|, h.files, old(h.trees), name, work,
                                         distRepo, distTag, baseDir, dist);
            h.log == old(h.log) + o.steps && h.trees == o.trees && (s.Done? <==> o.ok)
  {
    ghost var log0, trees0 := h.log, h.trees;
    ghost var o2 := GitRepo(h.shell, |log0|, h.files, trees0, distRepo, PathJoin(baseDir, name + "-dist-git"),
                            dist, distTag);
    s := PrepareGitRepo(h, distRepo, PathJoin(baseDir, name + "-dist-git"), dist, distTag);
    if s.Failed? {
      return;
    }
    ghost var log1 := h.log;
    assert o2.ok && log1 == log0 + o2.steps && h.trees == o2.trees;
    ghost var o3 := PatchOutcome(h.shell, h.treeFile, |log1|, h.trees, name, dist, work);
    assert DistAndPatchOutcome(h.shell, h.treeFile, |log0|, h.files, trees0, name, work, distRepo, distTag,
                               baseDir, dist) == After(o2.steps, o3);
    s := ApplyPatch(h, name, dist, work);
    LogExtends(log0, o2.steps, log1, o3.steps, h.log);
  }

}
