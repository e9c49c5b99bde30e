/** The machine the coverage engine drives: its files, its directory trees, its working directory,
    and the external programs it starts. `run_cmd` and the other external steps are opaque: their
    outcome is given by the oracle `shell`, indexed by the step's position in the log, and every
    step is recorded in `log`, so the exact command text the code issues is observable. */
module Host {
  import opened Errors

  /** One external step, as the machine's log records it. */
  datatype Effect =
    | Run(cmd: string)               // run_cmd(cmd)
    | Unpack(dir: string)            // listdir(dir)[0], rpm2cpio | cpio -ivdm, os.remove of the archive
    | ExtraPrepare(workDir: string)  // the fixed sequence of code generators run by _extra_prepare

  /** Where the contents of a directory tree came from. */
  datatype Tree =
    | Fresh                               // an empty directory made by mkdtemp
    | Clone(repo: string)                 // git clone
    | Pull(mirror: Tree)                  // git pull in an existing mirror
    | Checkout(tree: Tree, commit: string)  // git checkout -f
    | Patched(tree: Tree, patch: string)  // git am -3 of a patch file
    | Unpacked(url: string)               // a downloaded package unpacked by cpio

  class Machine {
    /** Text files by path. */
    var files: map<string, string>
    /** Directory trees by path. */
    var trees: map<string, Tree>
    var cwd: string
    /** Files kept by the web application's file storage, by storage name. */
    var storage: map<string, string>
    /** Every external step issued so far, in order. */
    var log: seq<Effect>
    /** The outcome of the external step issued at a given position of the log: its output, or
        the failure `run_cmd` raises. */
    const shell: (nat, Effect) -> Result<string>
    /** The text of the file at a relative path inside a tree with the given history, or the
        failure of opening it. */
    const treeFile: (Tree, string) -> Result<string>

    constructor (files0: map<string, string>, trees0: map<string, Tree>, cwd0: string,
                 storage0: map<string, string>, shell0: (nat, Effect) -> Result<string>,
                 treeFile0: (Tree, string) -> Result<string>)
      ensures files == files0 && trees == trees0 && cwd == cwd0 && storage == storage0
      ensures log == [] && shell == shell0 && treeFile == treeFile0
    {
      files, trees, cwd, storage, log := files0, trees0, cwd0, storage0, [];
      shell, treeFile := shell0, treeFile0;
    }

    /** Issues an external step and records it. */
    method Perform(e: Effect) returns (r: Result<string>)
      modifies this`log
      ensures log == old(log) + [e]
      ensures r == shell(|old(log)|, e)
    {
      r := shell(|log|, e);
      log := log + [e];
    }

    /** `run_cmd(cmd)`: the output of the command, or the exception it raises. */
    method RunCmd(cmd: string) returns (r: Result<string>)
      modifies this`log
      ensures log == old(log) + [Run(cmd)]
      ensures r == shell(|old(log)|, Run(cmd))
    {
      r := Perform(Run(cmd));
    }

    /** `os.path.exists(p)`. */
    method Exists(p: string) returns (b: bool)
      ensures b <==> p in files || p in trees
    {
      b := p in files || p in trees;
    }

    /** `shutil.rmtree(p)`: fails when there is no tree at `p`. */
    method RmTree(p: string) returns (s: Status)
      modifies this`trees
      ensures s.Done? <==> p in old(trees)
      ensures trees == old(trees) - {p}
    {
      if p in trees {
        trees := trees - {p};
        s := Done;
      } else {
        s := Failed("No such file or directory: " + p);
      }
    }

    /** `shutil.copytree(src, dst)`: fails when `src` is missing or `dst` already exists. */
    method CopyTree(src: string, dst: string) returns (s: Status)
      modifies this`trees
      ensures s.Done? <==> src in old(trees) && dst !in old(trees) && dst !in files
      ensures trees == if s.Done? then old(trees)[dst := old(trees)[src]] else old(trees)
    {
      if src in trees && dst !in trees && dst !in files {
        trees := trees[dst := trees[src]];
        s := Done;
      } else {
        s := Failed("cannot copy " + src + " to " + dst);
      }
    }

    /** `tempfile.mkdtemp()`: a new empty directory at a path nothing occupies. */
    method MkdTemp() returns (d: string)
      modifies this`trees
      ensures d !in old(trees) && d !in files
      ensures trees == old(trees)[d := Fresh]
    {
      FreshName(trees.Keys + files.Keys);
      d :| d !in trees.Keys + files.Keys;
      trees := trees[d := Fresh];
    }

    /** `tempfile.NamedTemporaryFile(delete=False)` written with `text`: a new file. */
    method MkTempFile(text: string) returns (f: string)
      modifies this`files
      ensures f !in old(files) && f !in trees
      ensures files == old(files)[f := text]
    {
      FreshName(trees.Keys + files.Keys);
      f :| f !in trees.Keys + files.Keys;
      files := files[f := text];
    }

    /** `open(p).read()`: fails when there is no file at `p`. */
    method ReadText(p: string) returns (r: Result<string>)
      ensures r.Ok? <==> p in files
      ensures r.Ok? ==> r.value == files[p]
    {
      if p in files {
        r := Ok(files[p]);
      } else {
        r := Err("No such file or directory: " + p);
      }
    }

    /** `open(os.path.join(dir, rel)).read()` for a file inside the tree at `dir`: fails when
        there is no tree at `dir` or the tree has no such file. */
    method ReadTreeFile(dir: string, rel: string) returns (r: Result<string>)
      ensures dir !in trees ==> r.Err?
      ensures dir in trees ==> r == treeFile(trees[dir], rel)
    {
      if dir in trees {
        r := treeFile(trees[dir], rel);
      } else {
        r := Err("No such file or directory: " + dir);
      }
    }

    /** `open(p, 'w').write(text)`. */
    method WriteText(p: string, text: string)
      modifies this`files
      ensures files == old(files)[p := text]
    {
      files := files[p := text];
    }

    /** `FieldFile.delete(save=False)`: removes the stored file, if a name is set. Deleting a name
        the storage no longer holds is not an error. */
    method DeleteStored(name: string)
      modifies this`storage
      ensures storage == if name != "" then old(storage) - {name} else old(storage)
    {
      if name != "" {
        storage := storage - {name};
      }
    }

    /** `os.chdir(p)`. */
    method ChDir(p: string)
      modifies this`cwd
      ensures cwd == p
    {
      cwd := p;
    }
  }

  /** Every finite set of paths leaves some path free. */
  lemma FreshName(used: set<string>)
    ensures exists p: string :: p !in used
  {
    var p := seq(MaxLen(used) + 1, _ => 'x');
    if p in used {
      MaxLenBound(used, p);
    }
  }

  ghost function MaxLen(used: set<string>): nat
    decreases used
  {
    if used == {} then 0
    else
      var x :| x in used;
      var rest := MaxLen(used - {x});
      if |x| < rest then rest else |x|
  }

  lemma {:induction false} MaxLenBound(used: set<string>, p: string)
    requires p in used
    ensures |p| <= MaxLen(used)
    decreases used
  {
    var x :| x in used && MaxLen(used) == (var rest := MaxLen(used - {x}); if |x| < rest then rest else |x|);
    if x != p {
      MaxLenBound(used - {x}, p);
    }
  }
}
