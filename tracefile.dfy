/** CCoverageHelper: the LCOV side of report generation. It rewrites the source paths recorded in
    a tracefile and builds the `genhtml` and `lcov` command lines. */
module Tracefile {
  import opened Errors
  import opened Text
  import opened Host

  /** The marker of the lines that name a source file. */
  const Marker := "SF:"

  /** A line the rewrite changes: it mentions the marker (anywhere, not only at its start) and `src`. */
  predicate Rewrites(line: string, src: string) {
    Contains(line, Marker) && Contains(line, src)
  }

  /** A line that ends a rewrite run with `check_all` off: it mentions the marker and `tgt`, but not
      `src`, taken as a sign that the file was already rewritten. A line with both is rewritten. */
  predicate Blocks(line: string, src: string, tgt: string) {
    Contains(line, Marker) && !Contains(line, src) && Contains(line, tgt)
  }

  function RewriteLine(line: string, src: string, tgt: string): string {
    if Rewrites(line, src) then ReplaceAll(line, src, tgt) else line
  }

  /** The lines after a full pass: same number of lines; a line is changed only when it mentions
      both the marker and `src`, and then every occurrence of `src` is replaced by `tgt`. */
  function RewriteLines(lines: seq<string>, src: string, tgt: string): (r: seq<string>)
    ensures |r| == |lines|
    ensures forall i :: 0 <= i < |lines| && !Rewrites(lines[i], src) ==> r[i] == lines[i]
    ensures forall i :: 0 <= i < |lines| && Rewrites(lines[i], src) ==> r[i] == ReplaceAll(lines[i], src, tgt)
    decreases |lines|
  {
    if lines == [] then [] else [RewriteLine(lines[0], src, tgt)] + RewriteLines(lines[1..], src, tgt)
  }

  predicate Blocked(lines: seq<string>, src: string, tgt: string) {
    exists i :: 0 <= i < |lines| && Blocks(lines[i], src, tgt)
  }

  /** The text `replace_tracefile` leaves in the file: unchanged when `check_all` is off and some
      line blocks, else the rewritten lines written back. */
  function RewrittenText(text: string, src: string, tgt: string, checkAll: bool): string {
    var lines := SplitLines(text);
    if !checkAll && Blocked(lines, src, tgt) then text else Concat(RewriteLines(lines, src, tgt))
  }

  /** A tracefile in which no source-file line mentions `src` is written back byte for byte. */
  lemma NoSourceNoChange(text: string, src: string, tgt: string, checkAll: bool)
    requires forall i :: 0 <= i < |SplitLines(text)| ==> !Rewrites(SplitLines(text)[i], src)
    ensures RewrittenText(text, src, tgt, checkAll) == text
  {
    var lines := SplitLines(text);
    assert RewriteLines(lines, src, tgt) == lines;
  }

  /** With `check_all` off, a file that has a blocking line is left exactly as it was, even when
      lines before the blocking one would have been rewritten. */
  lemma BlockedLeavesFile(text: string, src: string, tgt: string, k: nat)
    requires k < |SplitLines(text)| && Blocks(SplitLines(text)[k], src, tgt)
    ensures RewrittenText(text, src, tgt, false) == text
  {
  }

  /** Rewriting to the same prefix is harmless: the file comes back unchanged. */
  lemma {:induction false} RewriteToSelf(lines: seq<string>, src: string)
    ensures RewriteLines(lines, src, src) == lines
    decreases |lines|
  {
    if lines != [] {
      ReplaceSelf(lines[0], src);
      RewriteToSelf(lines[1..], src);
    }
  }

  /** `replace_tracefile(file_path, src, tgt, check_all)`: reads the file, rewrites its lines in
      place, returns early without writing on a blocking line when `check_all` is off, and
      otherwise writes all lines back. A missing file raises. */
  method ReplaceTracefile(h: Machine, path: string, src: string, tgt: string, checkAll: bool)
    returns (s: Status)
    modifies h`files
    ensures s.Done? <==> path in old(h.files)
    ensures s.Done? ==> h.files == old(h.files)[path := RewrittenText(old(h.files)[path], src, tgt, checkAll)]
    ensures s.Failed? ==> h.files == old(h.files)
  {
    var read := h.ReadText(path);
    if read.Err? {
      return Failed(read.reason);
    }
    var original := SplitLines(read.value);
    var lines := original;
    var i := 0;
    while i < |lines|
      invariant 0 <= i <= |lines| == |original|
      invariant forall k :: 0 <= k < i ==> lines[k] == RewriteLine(original[k], src, tgt)
      invariant forall k :: i <= k < |lines| ==> lines[k] == original[k]
      invariant checkAll || forall k :: 0 <= k < i ==> !Blocks(original[k], src, tgt)
    {
      var line := lines[i];
      if !Contains(line, Marker) {
        i := i + 1;
        continue;
      }
      if Contains(line, src) {
        lines := lines[i := ReplaceAll(line, src, tgt)];
      } else if Contains(line, tgt) {
        if !checkAll {
          assert Blocks(original[i], src, tgt);
          return Done;
        }
      }
      i := i + 1;
    }
    assert lines == RewriteLines(original, src, tgt);
    h.WriteText(path, Concat(lines));
    s := Done;
  }

  /** `genhtml <tracefile> --output-directory <dir>`, with ` --ignore-errors source` appended when
      source errors are to be ignored. */
  function GenReportCommand(tracefile: string, outputDir: string, ignoreSourceErrors: bool): string {
    "genhtml " + tracefile + " --output-directory " + outputDir
      + (if ignoreSourceErrors then " --ignore-errors source" else "")
  }

  lemma SplitGenhtml(tracefile: string)
    requires IsWord(tracefile)
    ensures Split("genhtml " + tracefile) == ["genhtml", tracefile]
  {
    assert "genhtml " + tracefile == "genhtml" + " " + tracefile;
    SplitWord("genhtml");
    SplitAppendWord("genhtml", tracefile);
  }

  lemma SplitOutputDirectory(x: string, outputDir: string)
    requires IsWord(outputDir)
    ensures Split(x + " --output-directory " + outputDir) == Split(x) + ["--output-directory", outputDir]
  {
    assert x + " --output-directory " + outputDir == x + " " + "--output-directory" + " " + outputDir;
    SplitAppendTwo(x, "--output-directory", outputDir);
  }

  lemma SplitIgnoreErrors(x: string)
    ensures Split(x + " --ignore-errors source") == Split(x) + ["--ignore-errors", "source"]
  {
    var a, b := "--ignore-errors", "source";
    assert " --ignore-errors source" == " " + a + " " + b;
    assert x + (" " + a + " " + b) == x + " " + a + " " + b;
    SplitAppendTwo(x, a, b);
  }

  /** The arguments `genhtml` receives once `run_cmd` splits the command. */
  lemma GenReportArgs(tracefile: string, outputDir: string, ignoreSourceErrors: bool)
    requires IsWord(tracefile) && IsWord(outputDir)
    ensures Split(GenReportCommand(tracefile, outputDir, ignoreSourceErrors))
         == ["genhtml", tracefile, "--output-directory", outputDir]
            + (if ignoreSourceErrors then ["--ignore-errors", "source"] else [])
  {
    var head := "genhtml " + tracefile;
    var x := head + " --output-directory " + outputDir;
    SplitGenhtml(tracefile);
    SplitOutputDirectory(head, outputDir);
    if ignoreSourceErrors {
      SplitIgnoreErrors(x);
    } else {
      assert GenReportCommand(tracefile, outputDir, false) == x;
    }
  }

  /** `CCoverageHelper.gen_report`: runs `genhtml`; fails when the command fails. */
  method GenReport(h: Machine, tracefile: string, outputDir: string, ignoreSourceErrors: bool)
    returns (s: Status)
    modifies h`log
    ensures h.log == old(h.log) + [Run(GenReportCommand(tracefile, outputDir, ignoreSourceErrors))]
    ensures s.Done? <==> h.shell(|old(h.log)|, Run(GenReportCommand(tracefile, outputDir, ignoreSourceErrors))).Ok?
  {
    var cmd := "genhtml " + tracefile + " --output-directory " + outputDir;
    if ignoreSourceErrors {
      cmd := cmd + " --ignore-errors source";
    } else {
      assert cmd + "" == cmd;
    }
    var r := h.RunCmd(cmd);
    s := if r.Ok? then Done else Failed(r.reason);
  }

  /** The ` -a <tracefile>` options, one per tracefile, in the given order. */
  function AddOptions(tracefiles: seq<string>): string
    decreases |tracefiles|
  {
    if tracefiles == [] then ""
    else AddOptions(tracefiles[..|tracefiles| - 1]) + " -a " + tracefiles[|tracefiles| - 1]
  }

  /** `lcov -a <t1> -a <t2> ... -o <merged>`. */
  function MergeCommand(tracefiles: seq<string>, merged: string): string {
    "lcov" + AddOptions(tracefiles) + " -o " + merged
  }

  /** The arguments of the merge after `lcov`: each tracefile once, in order, behind its own `-a`. */
  function AddArgs(tracefiles: seq<string>): (args: seq<string>)
    ensures |args| == 2 * |tracefiles|
    ensures forall k :: 0 <= k < |tracefiles| ==> args[2 * k] == "-a" && args[2 * k + 1] == tracefiles[k]
    decreases |tracefiles|
  {
    if tracefiles == [] then []
    else AddArgs(tracefiles[..|tracefiles| - 1]) + ["-a", tracefiles[|tracefiles| - 1]]
  }

  lemma SplitAddOption(x: string, tracefile: string)
    requires IsWord(tracefile)
    ensures Split(x + " -a " + tracefile) == Split(x) + ["-a", tracefile]
  {
    assert x + " -a " + tracefile == x + " " + "-a" + " " + tracefile;
    SplitAppendTwo(x, "-a", tracefile);
  }

  lemma SplitOutputOption(x: string, merged: string)
    requires IsWord(merged)
    ensures Split(x + " -o " + merged) == Split(x) + ["-o", merged]
  {
    assert x + " -o " + merged == x + " " + "-o" + " " + merged;
    SplitAppendTwo(x, "-o", merged);
  }

  lemma {:induction false} AddOptionsArgs(tracefiles: seq<string>)
    requires forall k :: 0 <= k < |tracefiles| ==> IsWord(tracefiles[k])
    ensures Split("lcov" + AddOptions(tracefiles)) == ["lcov"] + AddArgs(tracefiles)
    decreases |tracefiles|
  {
    if tracefiles == [] {
      SplitWord("lcov");
    } else {
      var init, t := tracefiles[..|tracefiles| - 1], tracefiles[|tracefiles| - 1];
      AddOptionsArgs(init);
      SplitAddOption("lcov" + AddOptions(init), t);
      AddOptionsLast(tracefiles);
    }
  }

  /** The last tracefile adds its own `-a` option after those of the others. */
  lemma AddOptionsLast(tracefiles: seq<string>)
    requires tracefiles != []
    ensures var init, t := tracefiles[..|tracefiles| - 1], tracefiles[|tracefiles| - 1];
            "lcov" + AddOptions(tracefiles) == "lcov" + AddOptions(init) + " -a " + t
            && ["lcov"] + AddArgs(tracefiles) == ["lcov"] + AddArgs(init) + ["-a", t]
  {
    var init, t := tracefiles[..|tracefiles| - 1], tracefiles[|tracefiles| - 1];
    var options, args := AddOptions(init), AddArgs(init);
    assert "lcov" + (options + " -a " + t) == "lcov" + options + " -a " + t;
    assert ["lcov"] + (args + ["-a", t]) == ["lcov"] + args + ["-a", t];
  }

  /** The merge passes every tracefile to `lcov` once, in the given order, then the output. */
  lemma MergeCommandArgs(tracefiles: seq<string>, merged: string)
    requires forall k :: 0 <= k < |tracefiles| ==> IsWord(tracefiles[k])
    requires IsWord(merged)
    ensures Split(MergeCommand(tracefiles, merged)) == ["lcov"] + AddArgs(tracefiles) + ["-o", merged]
  {
    AddOptionsArgs(tracefiles);
    SplitOutputOption("lcov" + AddOptions(tracefiles), merged);
  }

  /** `merge_tracefile(tracefiles, merged_tracefile)`: builds the command option by option and runs it. */
  method MergeTracefile(h: Machine, tracefiles: seq<string>, merged: string) returns (s: Status)
    modifies h`log
    ensures h.log == old(h.log) + [Run(MergeCommand(tracefiles, merged))]
    ensures s.Done? <==> h.shell(|old(h.log)|, Run(MergeCommand(tracefiles, merged))).Ok?
  {
    var cmd := "lcov";
    var i := 0;
    while i < |tracefiles|
      invariant 0 <= i <= |tracefiles|
      invariant cmd == "lcov" + AddOptions(tracefiles[..i])
    {
      assert tracefiles[..i + 1][..i] == tracefiles[..i];
      cmd := cmd + " -a " + tracefiles[i];
      i := i + 1;
    }
    assert tracefiles[..i] == tracefiles;
    cmd := cmd + " -o " + merged;
    var r := h.RunCmd(cmd);
    s := if r.Ok? then Done else Failed(r.reason);
  }

  /** `lcov --diff <src_tf> <diff_file> -o <tgt_tf>`. */
  function ConvertCommand(srcTracefile: string, tgtTracefile: string, diffFile: string): string {
    "lcov --diff " + srcTracefile + " " + diffFile + " -o " + tgtTracefile
  }

  /** The conversion reads the source tracefile and the diff, and writes the target tracefile. */
  lemma ConvertCommandArgs(srcTracefile: string, tgtTracefile: string, diffFile: string)
    requires IsWord(srcTracefile) && IsWord(tgtTracefile) && IsWord(diffFile)
    ensures Split(ConvertCommand(srcTracefile, tgtTracefile, diffFile))
         == ["lcov", "--diff", srcTracefile, diffFile, "-o", tgtTracefile]
  {
    var x := "lcov --diff " + srcTracefile + " " + diffFile;
    assert "lcov --diff " + srcTracefile == "lcov" + " " + "--diff" + " " + srcTracefile;
    SplitWord("lcov");
    SplitAppendTwo("lcov", "--diff", srcTracefile);
    SplitAppendWord("lcov --diff " + srcTracefile, diffFile);
    SplitOutputOption(x, tgtTracefile);
  }

  /** `convert_tracefile(src_tf, tgt_tf, diff_file)`. */
  method ConvertTracefile(h: Machine, srcTracefile: string, tgtTracefile: string, diffFile: string)
    returns (s: Status)
    modifies h`log
    ensures h.log == old(h.log) + [Run(ConvertCommand(srcTracefile, tgtTracefile, diffFile))]
    ensures s.Done? <==> h.shell(|old(h.log)|, Run(ConvertCommand(srcTracefile, tgtTracefile, diffFile))).Ok?
  {
    var r := h.RunCmd("lcov --diff " + srcTracefile + " " + diffFile + " -o " + tgtTracefile);
    s := if r.Ok? then Done else Failed(r.reason);
  }
}
