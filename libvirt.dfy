/** LibvirtCoverageHelper: chooses how to prepare the libvirt sources for a build that is to be
    reported on (the installed build as it is, a reinstall of the distribution's packages, or a
    checkout of the release's git tag), and generates its report from a tracefile whose paths were
    recorded under `/usr/coverage/`. */
module Libvirt {
  import opened Errors
  import opened Text
  import opened Numerals
  import opened Host
  import opened CoverageEnv
  import opened Tracefile

  // ---------------------------------------------------------------------------------------------
  // str.format with positional fields

  /** How the fields of a format string have been numbered so far: Python refuses to mix `{}`
      with `{0}`. */
  datatype Numbering = Unset | Auto | Manual

  /** `p` in front of a successful result; a failure stays as it is. */
  function Prepend(p: string, r: Result<string>): Result<string> {
    if r.Ok? then Ok(p + r.value) else r
  }

  /** `fmt.format(*args)` from the middle of the format string: `next` is the argument an
      automatically numbered `{}` takes next. `{{` and `}}` stand for single braces; a lone brace,
      an index past the arguments, a field that is neither empty nor a number, and a mix of `{}`
      with `{<n>}` raise. */
  function FormatFrom(fmt: string, args: seq<string>, next: nat, mode: Numbering): Result<string>
    decreases |fmt|
  {
    if fmt == [] then Ok([])
    else if fmt[0] == '{' then
      if |fmt| >= 2 && fmt[1] == '{' then Prepend("{", FormatFrom(fmt[2..], args, next, mode))
      else
        var n := RunBefore(fmt[1..], '}');
        if n == |fmt| - 1 then Err("Single '{' encountered in format string")
        else
          var field, rest := fmt[1..n + 1], fmt[n + 2..];
          if field == [] then
            if mode.Manual? then Err("cannot switch from manual field specification to automatic field numbering")
            else if next >= |args| then Err("Replacement index out of range for positional args tuple")
            else Prepend(args[next], FormatFrom(rest, args, next + 1, Auto))
          else if AllDigits(field, 10) then
            if mode.Auto? then Err("cannot switch from automatic field numbering to manual field specification")
            else if Value(field, 10) >= |args| then Err("Replacement index out of range for positional args tuple")
            else Prepend(args[Value(field, 10)], FormatFrom(rest, args, next, Manual))
          else Err(field)
    else if fmt[0] == '}' then
      if |fmt| >= 2 && fmt[1] == '}' then Prepend("}", FormatFrom(fmt[2..], args, next, mode))
      else Err("Single '}' encountered in format string")
    else Prepend([fmt[0]], FormatFrom(fmt[1..], args, next, mode))
  }

  /** `fmt.format(*args)`. */
  function Format(fmt: string, args: seq<string>): Result<string> {
    FormatFrom(fmt, args, 0, Unset)
  }

  /** The format string that stands for `s` itself: every brace doubled. */
  function Escape(s: string): string
    decreases |s|
  {
    if s == [] then [] else EscapeChar(s[0]) + Escape(s[1..])
  }

  function EscapeChar(c: char): string {
    if c == '{' then "{{" else if c == '}' then "}}" else [c]
  }

  /** An escaped character formats to itself. */
  lemma FormatEscapedChar(c: char, tail: string, args: seq<string>, next: nat, mode: Numbering)
    ensures FormatFrom(EscapeChar(c) + tail, args, next, mode) == Prepend([c], FormatFrom(tail, args, next, mode))
  {
    var fmt := EscapeChar(c) + tail;
    if c == '{' || c == '}' {
      assert fmt[0] == c && fmt[1] == c && fmt[2..] == tail;
    } else {
      assert fmt[0] == c && fmt[1..] == tail;
    }
  }

  lemma PrependPrepend(p: string, q: string, r: Result<string>)
    ensures Prepend(p, Prepend(q, r)) == Prepend(p + q, r)
  {
    if r.Ok? {
      assert p + (q + r.value) == (p + q) + r.value;
    }
  }

  /** Escaped text formats to itself, whatever follows it. */
  lemma {:induction false} FormatEscaped(p: string, rest: string, args: seq<string>, next: nat, mode: Numbering)
    ensures FormatFrom(Escape(p) + rest, args, next, mode) == Prepend(p, FormatFrom(rest, args, next, mode))
    decreases |p|
  {
    var r := FormatFrom(rest, args, next, mode);
    if p == [] {
      assert Escape(p) + rest == rest;
      assert r.Ok? ==> p + r.value == r.value;
    } else {
      var c := p[0];
      var tail := Escape(p[1..]) + rest;
      assert Escape(p) + rest == EscapeChar(c) + tail;
      FormatEscaped(p[1..], rest, args, next, mode);
      FormatEscapedChar(c, tail, args, next, mode);
      PrependPrepend([c], p[1..], r);
      assert [c] + p[1..] == p;
    }
  }

  /** A brace-free string is its own escape. */
  lemma {:induction false} EscapePlain(s: string)
    requires forall i :: 0 <= i < |s| ==> s[i] != '{' && s[i] != '}'
    ensures Escape(s) == s
    decreases |s|
  {
    if s != [] {
      EscapePlain(s[1..]);
      assert [s[0]] + s[1..] == s;
    }
  }

  /** Escaping round-trips: the escaped text formats back to the text, with any arguments. */
  lemma FormatEscape(s: string, args: seq<string>)
    ensures Format(Escape(s), args) == Ok(s)
  {
    FormatEscaped(s, "", args, 0, Unset);
    assert Escape(s) + "" == Escape(s);
    assert s + [] == s;
  }

  /** `{<i>}` takes argument `i` and fixes the numbering as manual. */
  lemma FormatIndexed(i: nat, rest: string, args: seq<string>, next: nat, mode: Numbering)
    requires !mode.Auto?
    ensures var r := FormatFrom("{" + Decimal(i) + "}" + rest, args, next, mode);
            if i < |args| then r == Prepend(args[i], FormatFrom(rest, args, next, Manual)) else r.Err?
  {
    var d := Decimal(i);
    var fmt := "{" + d + "}" + rest;
    assert fmt[1..] == d + "}" + rest;
    assert forall k :: 0 <= k < |d| ==> d[k] != '}';
    RunBeforeStop(d, '}', rest);
    assert fmt[0] == '{' && fmt[1] == d[0] && d[0] != '{';
    assert fmt[1..|d| + 1] == d && fmt[|d| + 2..] == rest;
  }

  /** `{}` takes the next argument in turn and fixes the numbering as automatic. */
  lemma FormatNext(rest: string, args: seq<string>, next: nat, mode: Numbering)
    requires !mode.Manual?
    ensures var r := FormatFrom("{}" + rest, args, next, mode);
            if next < |args| then r == Prepend(args[next], FormatFrom(rest, args, next + 1, Auto)) else r.Err?
  {
    var fmt := "{}" + rest;
    assert fmt[1..] == "}" + rest;
    assert RunBefore(fmt[1..], '}') == 0;
    assert fmt[1..1] == [] && fmt[2..] == rest;
  }

  /** A tag format with one numbered field, such as `v{1}`, yields the text around the field with
      that argument in its place; an index past the arguments raises. */
  lemma FormatOneField(p: string, i: nat, q: string, args: seq<string>)
    ensures var r := Format(Escape(p) + "{" + Decimal(i) + "}" + Escape(q), args);
            if i < |args| then r == Ok(p + args[i] + q) else r.Err?
  {
    var slot, e := "{" + Decimal(i) + "}", Escape(q);
    var tail := FormatFrom(slot + e, args, 0, Unset);
    SlotAssoc(Escape(p), Decimal(i), e);
    FormatEscaped(p, slot + e, args, 0, Unset);
    FormatIndexed(i, e, args, 0, Unset);
    if i < |args| {
      FormatEscapedManual(q, args);
      assert tail == Prepend(args[i], Ok(q));
      PrependPrepend(p, args[i], Ok(q));
    }
  }

  lemma SlotAssoc(x: string, d: string, e: string)
    ensures x + "{" + d + "}" + e == x + ("{" + d + "}" + e)
  {
  }

  /** Escaped text also formats to itself once the numbering is manual. */
  lemma FormatEscapedManual(q: string, args: seq<string>)
    ensures FormatFrom(Escape(q), args, 0, Manual) == Ok(q)
  {
    FormatEscaped(q, "", args, 0, Manual);
    assert Escape(q) + "" == Escape(q);
    assert q + [] == q;
  }

  /** The numbering cannot switch: `{}` after `{0}` raises. */
  lemma FormatNoSwitch(args: seq<string>)
    requires args != []
    ensures Format("{0}{}", args).Err?
  {
    FormatSwitchRaises(0, "", args);
    assert "{" + Decimal(0) + "}" + ("{}" + "") == "{0}{}";
  }

  /** A numbered field followed by `{}` raises, whatever follows. */
  lemma FormatSwitchRaises(i: nat, rest: string, args: seq<string>)
    ensures Format("{" + Decimal(i) + "}" + ("{}" + rest), args).Err?
  {
    FormatIndexed(i, "{}" + rest, args, 0, Unset);
    FormatNextManual(rest, args, 0);
  }

  /** `{}` once the numbering is manual raises. */
  lemma FormatNextManual(rest: string, args: seq<string>, next: nat)
    ensures FormatFrom("{}" + rest, args, next, Manual).Err?
  {
    var fmt := "{}" + rest;
    assert fmt[1..] == "}" + rest;
    assert RunBefore(fmt[1..], '}') == 0;
    assert fmt[1..1] == [];
  }

  // ---------------------------------------------------------------------------------------------
  // prepare_env

  /** The helpers the plan consults, whose definitions are not part of this model:
      `parse_package_name`, `check_package_version` (the installed build of a package) and
      `trans_distro_info` (the distribution tag of this machine, such as `el7`). Each of them can
      raise instead of answering. */
  datatype Probes = Probes(parse: string -> Result<PackageId>, installed: string -> Result<string>,
                           distro: Result<string>)

  /** Where a libvirt build of `version` is prepared. */
  function WorkDir(version: string): string {
    "/mnt/coverage/BUILD/libvirt-" + version + "/"
  }

  const VirtcovCommand := "virtcov -s"

  /** The packages a reinstall asks yum for: the build itself, and on `el6` the client and
      development packages, elsewhere the documentation package. */
  function ReinstallPackages(versionName: string, distro: string): seq<string> {
    if distro == "el6" then [versionName, "libvirt-client", "libvirt-devel"] else [versionName, "libvirt-docs"]
  }

  /** The way the sources are prepared. */
  datatype Plan =
    | Virtcov(workDir: string)                               // the installed build is the one reported on
    | Reinstall(packages: seq<string>, workDir: string)      // the distribution ships the build
    | FromGit(tag: string, workDir: string)                  // the release's git tag is built

  /** The selection `prepare_env(version_name, params)` makes, or the exception it raises first. */
  function LibvirtPlan(probes: Probes, versionName: string, tagFmt: string): Result<Plan> {
    var id := probes.parse(versionName);
    if id.Err? then Err(id.reason)
    else if id.value.name != "libvirt" then Err("This is not libvirt report: " + id.value.name)
    else
      var work := WorkDir(id.value.version);
      var installed := probes.installed(id.value.name);
      if installed.Err? then Err(installed.reason)
      else if installed.value == versionName then Ok(Virtcov(work))
      else if probes.distro.Err? then Err(probes.distro.reason)
      else if Contains(id.value.release, probes.distro.value) then
        Ok(Reinstall(ReinstallPackages(versionName, probes.distro.value), work))
      else
        var tag := Format(tagFmt, [id.value.name, id.value.version, id.value.release, id.value.arch]);
        if tag.Err? then Err(tag.reason) else Ok(FromGit(tag.value, work))
  }

  /** The selection is an ordered chain: a package that does not parse, or one other than libvirt,
      is refused; then the installed build is asked for, and its failure raises; an installed
      build equal to the one asked for wins; only then is the distribution asked for, and its
      failure raises; a release that carries this machine's distribution tag is reinstalled; only
      otherwise is the git tag built, named by the tag format filled with name, version, release
      and architecture in that order. */
  lemma LibvirtPlanChain(probes: Probes, versionName: string, tagFmt: string)
    ensures var plan := LibvirtPlan(probes, versionName, tagFmt);
            var id := probes.parse(versionName);
            var installed := probes.installed("libvirt");
            var distro := probes.distro;
            (plan.Ok? ==> id.Ok? && id.value.name == "libvirt" && installed.Ok?
                          && plan.value.workDir == WorkDir(id.value.version))
            && (id.Err? ==> plan == Err(id.reason))
            && (id.Ok? && id.value.name == "libvirt" && installed.Err? ==> plan == Err(installed.reason))
            && ((id.Ok? && id.value.name == "libvirt" && installed.Ok? && installed.value != versionName
                 && distro.Err?) ==> plan == Err(distro.reason))
            && (plan.Ok? && plan.value.Virtcov? <==>
                  id.Ok? && id.value.name == "libvirt" && installed == Ok(versionName))
            && (plan.Ok? && plan.value.Reinstall? <==>
                  id.Ok? && id.value.name == "libvirt" && installed.Ok? && installed.value != versionName
                  && distro.Ok? && Contains(id.value.release, distro.value))
            && (plan.Ok? && plan.value.Reinstall? ==>
                  plan.value.packages == ReinstallPackages(versionName, distro.value))
            && (plan.Ok? && plan.value.FromGit? <==>
                  id.Ok? && id.value.name == "libvirt" && installed.Ok? && installed.value != versionName
                  && distro.Ok? && !Contains(id.value.release, distro.value)
                  && Format(tagFmt, [id.value.name, id.value.version, id.value.release, id.value.arch]).Ok?)
            && (plan.Ok? && plan.value.FromGit? ==>
                  Format(tagFmt, [id.value.name, id.value.version, id.value.release, id.value.arch])
                  == Ok(plan.value.tag))
  {
  }

  /** A tag format `<p>{2}<q>` names the git tag after the release. */
  lemma LibvirtTagFromRelease(probes: Probes, versionName: string, p: string, q: string)
    requires LibvirtPlan(probes, versionName, Escape(p) + "{" + Decimal(2) + "}" + Escape(q)).Ok?
    requires LibvirtPlan(probes, versionName, Escape(p) + "{" + Decimal(2) + "}" + Escape(q)).value.FromGit?
    ensures LibvirtPlan(probes, versionName, Escape(p) + "{" + Decimal(2) + "}" + Escape(q)).value.tag
         == p + probes.parse(versionName).value.release + q
  {
    var id := probes.parse(versionName).value;
    FormatOneField(p, 2, q, [id.name, id.version, id.release, id.arch]);
  }

  /** `_prepare_virtcov_env(work_dir)`: removes the working directory, then runs `virtcov -s`. */
  function VirtcovOutcome(shell: (nat, Effect) -> Result<string>, at: nat, trees: map<string, Tree>, work: string)
    : Outcome
  {
    if work !in trees then Outcome(trees, [], false)
    else Outcome(trees - {work}, [Run(VirtcovCommand)], shell(at, Run(VirtcovCommand)).Ok?)
  }

  /** `RpmCoverageEnv.prepare_env(packages)`: `yum remove`, then `yum install` when that succeeded. */
  function RpmOutcome(shell: (nat, Effect) -> Result<string>, at: nat, trees: map<string, Tree>,
                      parse: string -> Result<PackageId>, packages: seq<string>): Outcome
  {
    var remove := Run(RemoveCommand(RemoveList(parse, packages)));
    var install := Run(InstallCommand(InstallList(parse, packages)));
    if shell(at, remove).Err? then Outcome(trees, [remove], false)
    else Outcome(trees, [remove, install], shell(at + 1, install).Ok?)
  }

  /** What carrying out a plan does, issued at log position `at`. */
  function PlanOutcome(shell: (nat, Effect) -> Result<string>, at: nat, files: map<string, string>,
                       trees: map<string, Tree>, parse: string -> Result<PackageId>, gitRepo: string, plan: Plan)
    : Outcome
  {
    match plan
    case Virtcov(work) => VirtcovOutcome(shell, at, trees, work)
    case Reinstall(packages, work) => ReinstallOutcome(shell, at, trees, parse, packages, work)
    case FromGit(tag, work) => GitBuildOutcome(shell, at, files, trees, gitRepo, tag, work)
  }

  /** The reinstall, then the virtcov environment when it succeeded. */
  function ReinstallOutcome(shell: (nat, Effect) -> Result<string>, at: nat, trees: map<string, Tree>,
                            parse: string -> Result<PackageId>, packages: seq<string>, work: string): Outcome
  {
    var o := RpmOutcome(shell, at, trees, parse, packages);
    if !o.ok then o else After(o.steps, VirtcovOutcome(shell, at + |o.steps|, o.trees, work))
  }

  /** The tag checked out from the libvirt mirror, then the generated sources when that succeeded. */
  function GitBuildOutcome(shell: (nat, Effect) -> Result<string>, at: nat, files: map<string, string>,
                           trees: map<string, Tree>, gitRepo: string, tag: string, work: string): Outcome
  {
    var o := GitRepo(shell, at, files, trees, gitRepo, PathJoin(DefaultBaseDir, "libvirt"), work, tag);
    if !o.ok then o
    else After(o.steps, Outcome(o.trees, [ExtraPrepare(work)], shell(at + |o.steps|, ExtraPrepare(work)).Ok?))
  }

  /** What each way issues when it completes: the installed build only runs `virtcov -s` after
      removing the working directory; a reinstall runs `yum remove`, `yum install`, then the same;
      a git build checks out the tag in the working directory from the libvirt mirror and ends
      with the generated sources. */
  lemma PlanOutcomeDone(shell: (nat, Effect) -> Result<string>, at: nat, files: map<string, string>,
                        trees: map<string, Tree>, parse: string -> Result<PackageId>, gitRepo: string, plan: Plan)
    requires PlanOutcome(shell, at, files, trees, parse, gitRepo, plan).ok
    ensures var o := PlanOutcome(shell, at, files, trees, parse, gitRepo, plan);
            match plan
            case Virtcov(work) => o.steps == [Run(VirtcovCommand)] && o.trees == trees - {work}
            case Reinstall(packages, work) =>
              o.steps == [Run(RemoveCommand(RemoveList(parse, packages))),
                          Run(InstallCommand(InstallList(parse, packages))), Run(VirtcovCommand)]
              && o.trees == trees - {work}
            case FromGit(tag, work) =>
              |o.steps| >= 2 && o.steps[|o.steps| - 1] == ExtraPrepare(work) && work in o.trees
              && o.trees[work] == (if tag == "" then o.trees[PathJoin(DefaultBaseDir, "libvirt")]
                                   else Checkout(o.trees[PathJoin(DefaultBaseDir, "libvirt")], tag))
  {
    match plan
    case Virtcov(work) =>
    case Reinstall(packages, work) =>
    case FromGit(tag, work) =>
      var base := PathJoin(DefaultBaseDir, "libvirt");
      var g := GitRepo(shell, at, files, trees, gitRepo, base, work, tag);
      GitRepoWorkingCopy(shell, at, files, trees, gitRepo, base, work, tag);
      assert |g.steps| >= 1;
  }

  /** `LibvirtCoverageHelper._prepare_virtcov_env(work_dir)`. */
  method PrepareVirtcovEnv(h: Machine, work: string) returns (s: Status)
    modifies h`log, h`trees
    ensures var o := VirtcovOutcome(h.shell, |old(h.log)|, old(h.trees), work);
            h.log == old(h.log) + o.steps && h.trees == o.trees && (s.Done? <==> o.ok)
  {
    s := h.RmTree(work);
    if s.Failed? {
      return;
    }
    var r := h.RunCmd(VirtcovCommand);
    s := if r.Ok? then Done else Failed(r.reason);
  }

  /** `LibvirtCoverageHelper.prepare_env(version_name, params)`, with `params['tag_fmt']` and
      `params['git_repo']` given as `tagFmt` and `gitRepo`: nothing happens when the selection
      raises; otherwise the chosen way is carried out. */
  method LibvirtPrepareEnv(h: Machine, probes: Probes, versionName: string, tagFmt: string, gitRepo: string)
    returns (s: Status)
    modifies h`log, h`trees
    ensures var plan := LibvirtPlan(probes, versionName, tagFmt);
            if plan.Err? then s.Failed? && h.log == old(h.log) && h.trees == old(h.trees)
            else
              var o := PlanOutcome(h.shell, |old(h.log)|, h.files, old(h.trees), probes.parse, gitRepo, plan.value);
              h.log == old(h.log) + o.steps && h.trees == o.trees && (s.Done? <==> o.ok)
  {
    var id := probes.parse(versionName);
    if id.Err? {
      return Failed(id.reason);
    }
    if id.value.name != "libvirt" {
      return Failed("This is not libvirt report: " + id.value.name);
    }
    var work := WorkDir(id.value.version);
    var installed := probes.installed(id.value.name);
    if installed.Err? {
      return Failed(installed.reason);
    }
    if installed.value == versionName {
      s := PrepareVirtcovEnv(h, work);
      return;
    }
    var distro := probes.distro;
    if distro.Err? {
      return Failed(distro.reason);
    }
    if Contains(id.value.release, distro.value) {
      s := ReinstallAndVirtcov(h, probes.parse, ReinstallPackages(versionName, distro.value), work);
      return;
    }
    var tag := Format(tagFmt, [id.value.name, id.value.version, id.value.release, id.value.arch]);
    if tag.Err? {
      return Failed(tag.reason);
    }
    s := BuildFromGit(h, tag.value, work, gitRepo);
  }

  /** The reinstall branch: the packages through yum, then the virtcov environment. */
  method ReinstallAndVirtcov(h: Machine, parse: string -> Result<PackageId>, packages: seq<string>, work: string)
    returns (s: Status)
    modifies h`log, h`trees
    ensures var o := ReinstallOutcome(h.shell, |old(h.log)|, old(h.trees), parse, packages, work);
            h.log == old(h.log) + o.steps && h.trees == o.trees && (s.Done? <==> o.ok)
  {
    ghost var log0 := h.log;
    ghost var o1 := RpmOutcome(h.shell, |log0|, h.trees, parse, packages);
    s := PrepareRpmEnv(h, parse, packages);
    if s.Failed? {
      return;
    }
    ghost var log1 := h.log;
    assert o1.ok && log1 == log0 + o1.steps;
    ghost var o2 := VirtcovOutcome(h.shell, |log1|, h.trees, work);
    s := PrepareVirtcovEnv(h, work);
    LogExtends(log0, o1.steps, log1, o2.steps, h.log);
  }

  /** The git branch: the tag checked out in the working directory from the libvirt mirror, then
      the sources generated there. */
  method BuildFromGit(h: Machine, tag: string, work: string, gitRepo: string) returns (s: Status)
    modifies h`log, h`trees
    ensures var o := GitBuildOutcome(h.shell, |old(h.log)|, h.files, old(h.trees), gitRepo, tag, work);
            h.log == old(h.log) + o.steps && h.trees == o.trees && (s.Done? <==> o.ok)
  {
    ghost var log0 := h.log;
    ghost var o1 := GitRepo(h.shell, |log0|, h.files, h.trees, gitRepo, PathJoin(DefaultBaseDir, "libvirt"), work, tag);
    s := GitPrepareEnv(h, "libvirt", work, gitRepo, tag, DefaultBaseDir);
    if s.Failed? {
      return;
    }
    ghost var log1 := h.log;
    assert o1.ok && log1 == log0 + o1.steps;
    var r := h.Perform(ExtraPrepare(work));
    LogExtends(log0, o1.steps, log1, [ExtraPrepare(work)], h.log);
    s := if r.Ok? then Done else Failed(r.reason);
  }

  // ---------------------------------------------------------------------------------------------
  // gen_report

  /** `LibvirtCoverageHelper.gen_report(tracefile, output_dir)`: the tracefile's source paths are
      moved from `/usr/coverage/` to `/mnt/coverage/` (every source-file line, `check_all` on), then
      the report is generated ignoring source errors. A missing tracefile raises before any command. */
  method LibvirtGenReport(h: Machine, tracefile: string, outputDir: string) returns (s: Status)
    modifies h`files, h`log
    ensures tracefile !in old(h.files) ==> s.Failed? && h.files == old(h.files) && h.log == old(h.log)
    ensures tracefile in old(h.files) ==>
              h.files == old(h.files)[tracefile := RewrittenText(old(h.files)[tracefile], "/usr/coverage/",
                                                                  "/mnt/coverage/", true)]
              && h.log == old(h.log) + [Run(GenReportCommand(tracefile, outputDir, true))]
              && (s.Done? <==> h.shell(|old(h.log)|, Run(GenReportCommand(tracefile, outputDir, true))).Ok?)
  {
    s := ReplaceTracefile(h, tracefile, "/usr/coverage/", "/mnt/coverage/", true);
    if s.Failed? {
      return;
    }
    s := GenReport(h, tracefile, outputDir, true);
  }
}
