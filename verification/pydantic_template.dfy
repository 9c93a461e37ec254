/** `get_template_files` of the PydanticAI copier
    (`use-cases/pydantic-ai/copy_template.py`): instead of an ignore file, a fixed list
    of places in the template decides what is copied: two top-level files, the `*.md`
    entries of `.claude/commands` and `PRPs/templates`, `PRPs/INITIAL.md`, and every file
    inside each subdirectory of `examples`. */
module PydanticTemplate {
  import opened Wrappers
  import opened Text
  import opened ShellGlob
  import opened TemplateWalk
  import opened CopyRun
  import opened Collections

  // ---------------------------------------------------------------------------
  // Looking things up in the template tree
  // ---------------------------------------------------------------------------

  /** The entry of a directory with the given name (a directory has at most one). */
  function Child(entries: seq<Node>, name: string): (r: Option<Node>)
    ensures r.Some? ==> r.value in entries && r.value.name == name
    ensures r.None? ==> forall i :: 0 <= i < |entries| ==> entries[i].name != name
    decreases |entries|
  {
    if |entries| == 0 then None
    else if entries[0].name == name then Some(entries[0])
    else Child(entries[1..], name)
  }

  /** The entry at a path below the directory holding `entries`. */
  function NodeAt(entries: seq<Node>, path: seq<string>): Option<Node>
    requires |path| >= 1
    decreases |path|
  {
    match Child(entries, path[0])
    case None => None
    case Some(n) =>
      if |path| == 1 then Some(n)
      else if n.Dir? then NodeAt(n.children, path[1..])
      else None
  }

  /** `Path.exists()`: a file or a directory is there. */
  predicate ExistsAt(tree: seq<Node>, path: seq<string>)
    requires |path| >= 1
  {
    NodeAt(tree, path).Some?
  }

  /** The entries of the directory at `path`; nothing when it is missing or a file. */
  function ListDir(tree: seq<Node>, path: seq<string>): seq<Node>
    requires |path| >= 1
  {
    match NodeAt(tree, path)
    case Some(Dir(_, children)) => children
    case _ => []
  }

  // ---------------------------------------------------------------------------
  // The four sections of the list
  // ---------------------------------------------------------------------------

  /** `CLAUDE.md` and `README.md` when present, the latter copied as `README_TEMPLATE.md`. */
  function CoreItems(tree: seq<Node>, root: seq<string>): seq<CopyItem> {
    (if ExistsAt(tree, ["CLAUDE.md"]) then [CopyItem(root + ["CLAUDE.md"], ["CLAUDE.md"])] else [])
    + (if ExistsAt(tree, ["README.md"]) then [CopyItem(root + ["README.md"], ["README_TEMPLATE.md"])] else [])
  }

  /** `dir.glob("*.md")`: the entries (files or directories) whose name ends in `.md`,
      hidden names included, each kept at the same relative place. */
  function MarkdownItems(entries: seq<Node>, dir: seq<string>, root: seq<string>): seq<CopyItem>
    decreases |entries|
  {
    if |entries| == 0 then []
    else
      (if FnMatch(entries[0].name, "*.md")
       then [CopyItem(root + dir + [entries[0].name], dir + [entries[0].name])] else [])
      + MarkdownItems(entries[1..], dir, root)
  }

  function CommandItems(tree: seq<Node>, root: seq<string>): seq<CopyItem> {
    if ExistsAt(tree, [".claude", "commands"])
    then MarkdownItems(ListDir(tree, [".claude", "commands"]), [".claude", "commands"], root)
    else []
  }

  function PrpItems(tree: seq<Node>, root: seq<string>): seq<CopyItem> {
    if ExistsAt(tree, ["PRPs"]) then
      (if ExistsAt(tree, ["PRPs", "templates"])
       then MarkdownItems(ListDir(tree, ["PRPs", "templates"]), ["PRPs", "templates"], root) else [])
      + (if ExistsAt(tree, ["PRPs", "INITIAL.md"])
         then [CopyItem(root + ["PRPs", "INITIAL.md"], ["PRPs", "INITIAL.md"])] else [])
    else []
  }

  function NothingIgnored(p: seq<string>): bool {
    false
  }

  /** Every file below the given relative paths, copied to the same relative path. */
  function SameRelativeItems(paths: seq<seq<string>>, root: seq<string>): (r: seq<CopyItem>)
    ensures |r| == |paths| && forall i :: 0 <= i < |paths| ==> r[i] == CopyItem(root + paths[i], paths[i])
  {
    seq(|paths|, i requires 0 <= i < |paths| => CopyItem(root + paths[i], paths[i]))
  }

  /** `example_dir.rglob("*")` filtered by `is_file()`, for each subdirectory of
      `examples`; files lying directly in `examples` are not visited. */
  function ExampleItemsOf(entries: seq<Node>, root: seq<string>): seq<CopyItem>
    decreases |entries|
  {
    if |entries| == 0 then []
    else
      var e := entries[0];
      (if e.Dir? then SameRelativeItems(Walk(e.children, ["examples", e.name], NothingIgnored), root) else [])
      + ExampleItemsOf(entries[1..], root)
  }

  /** The error `Path.iterdir()` raises on a file: `NotADirectoryError` for the path. */
  datatype ScanError = NotADirectory(path: seq<string>)

  /** `examples` is there but is a file. */
  predicate ExamplesIsFile(tree: seq<Node>) {
    match NodeAt(tree, ["examples"])
    case Some(File(_)) => true
    case _ => false
  }

  /** The example section. A missing `examples` gives nothing; an `examples` that is a
      file makes `examples_dir.iterdir()` raise, and nothing in the copier catches it. */
  function ExampleItems(tree: seq<Node>, root: seq<string>): (r: Result<seq<CopyItem>, ScanError>)
    ensures r.Failure? <==> ExamplesIsFile(tree)
    ensures r.Failure? ==> r.error == NotADirectory(["examples"])
    ensures !ExistsAt(tree, ["examples"]) ==> r == Success([])
  {
    if !ExistsAt(tree, ["examples"]) then Success([])
    else if ExamplesIsFile(tree) then Failure(NotADirectory(["examples"]))
    else Success(ExampleItemsOf(ListDir(tree, ["examples"]), root))
  }

  /** `get_template_files()`: the four sections in order, or the error of the scan. */
  function GetTemplateFiles(tree: seq<Node>, root: seq<string>): (r: Result<seq<CopyItem>, ScanError>)
    ensures r.Failure? <==> ExamplesIsFile(tree)
    ensures r.Success? ==> CoreItems(tree, root) + CommandItems(tree, root) + PrpItems(tree, root) <= r.value
  {
    match ExampleItems(tree, root)
    case Failure(e) => Failure(e)
    case Success(examples) =>
      Success(CoreItems(tree, root) + CommandItems(tree, root) + PrpItems(tree, root) + examples)
  }

  /** `main` of this copier: the checks on the target, then the scan. A scan that raises
      ends `main` with that error, so nothing is created or copied. */
  function CopierMain(argCount: nat, state: TargetState, force: bool, dryRun: bool, tree: seq<Node>,
                      root: seq<string>, copyOk: CopyItem -> bool, complete: bool): (r: Result<Run, ScanError>)
    ensures r.Failure? <==> RunMain(argCount, state, force, dryRun, [], copyOk, complete).scanned && ExamplesIsFile(tree)
    ensures r.Failure? ==> r.error == NotADirectory(["examples"])
    // a file called `examples` means the template is never copied
    ensures ExamplesIsFile(tree) && r.Success? ==> !r.value.scanned && !r.value.wrote
    ensures r.Success? && r.value.scanned ==>
              r.value == RunMain(argCount, state, force, dryRun, GetTemplateFiles(tree, root).value, copyOk, complete)
  {
    var early := RunMain(argCount, state, force, dryRun, [], copyOk, complete);
    if !early.scanned then Success(early)
    else
      match GetTemplateFiles(tree, root)
      case Failure(e) => Failure(e)
      case Success(files) => Success(RunMain(argCount, state, force, dryRun, files, copyOk, complete))
  }

  // ---------------------------------------------------------------------------
  // Properties
  // ---------------------------------------------------------------------------

  /** The two top-level files are listed exactly when present; `README.md` goes to
      `README_TEMPLATE.md` and `CLAUDE.md` keeps its name. */
  lemma CoreFilesWhenPresent(tree: seq<Node>, root: seq<string>)
    ensures CopyItem(root + ["CLAUDE.md"], ["CLAUDE.md"]) in CoreItems(tree, root) <==> ExistsAt(tree, ["CLAUDE.md"])
    ensures CopyItem(root + ["README.md"], ["README_TEMPLATE.md"]) in CoreItems(tree, root) <==> ExistsAt(tree, ["README.md"])
    ensures forall x :: x in CoreItems(tree, root) ==> x.target == ["CLAUDE.md"] || x.target == ["README_TEMPLATE.md"]
  {
    assert ["CLAUDE.md"] != ["README_TEMPLATE.md"] by {
      assert "CLAUDE.md" != "README_TEMPLATE.md" by {
        assert |"CLAUDE.md"| != |"README_TEMPLATE.md"|;
      }
    }
  }

  /** The pattern `*.md` matches exactly the names ending in `.md`. */
  lemma MarkdownGlob(name: string)
    ensures FnMatch(name, "*.md") <==> EndsWith(name, ".md")
  {
    assert "*.md" == "*" + ".md";
    assert forall i :: 0 <= i < |".md"| ==> !IsMeta(".md"[i]);
    StarSuffixPattern(name, ".md");
  }

  /** `glob("*.md")` keeps exactly the entries whose name ends in `.md`, each copied to
      the same place below the target. */
  lemma {:induction false} MarkdownItemsMembers(entries: seq<Node>, dir: seq<string>, root: seq<string>, x: CopyItem)
    ensures x in MarkdownItems(entries, dir, root)
            <==> exists i :: 0 <= i < |entries| && EndsWith(entries[i].name, ".md")
                             && x == CopyItem(root + dir + [entries[i].name], dir + [entries[i].name])
    decreases |entries|
  {
    if |entries| > 0 {
      MarkdownItemsMembers(entries[1..], dir, root, x);
      MarkdownGlob(entries[0].name);
      if exists i :: 0 <= i < |entries| && EndsWith(entries[i].name, ".md")
                     && x == CopyItem(root + dir + [entries[i].name], dir + [entries[i].name]) {
        var i :| 0 <= i < |entries| && EndsWith(entries[i].name, ".md")
                 && x == CopyItem(root + dir + [entries[i].name], dir + [entries[i].name]);
        if i > 0 {
          assert entries[1..][i - 1] == entries[i];
        }
      }
      if x in MarkdownItems(entries[1..], dir, root) {
        var i :| 0 <= i < |entries[1..]| && EndsWith(entries[1..][i].name, ".md")
                 && x == CopyItem(root + dir + [entries[1..][i].name], dir + [entries[1..][i].name]);
        assert entries[i + 1] == entries[1..][i];
      }
    }
  }

  /** From `.claude/commands`, only the `*.md` entries directly inside are listed, each
      with destination `.claude/commands/<name>`. */
  lemma CommandsAreMarkdownEntries(tree: seq<Node>, root: seq<string>, x: CopyItem)
    ensures x in CommandItems(tree, root)
            <==> exists e :: e in ListDir(tree, [".claude", "commands"]) && EndsWith(e.name, ".md")
                             && x == CopyItem(root + [".claude", "commands", e.name], [".claude", "commands", e.name])
  {
    var entries := ListDir(tree, [".claude", "commands"]);
    var dir := [".claude", "commands"];
    MarkdownItemsMembers(entries, dir, root, x);
    if !ExistsAt(tree, dir) {
      assert entries == [];
    }
    assert CommandItems(tree, root) == MarkdownItems(entries, dir, root);
    if x in CommandItems(tree, root) {
      var i :| 0 <= i < |entries| && EndsWith(entries[i].name, ".md")
               && x == CopyItem(root + dir + [entries[i].name], dir + [entries[i].name]);
      CommandPath(root, entries[i].name);
      assert entries[i] in entries;
    }
    if exists e :: e in entries && EndsWith(e.name, ".md")
                   && x == CopyItem(root + [".claude", "commands", e.name], [".claude", "commands", e.name]) {
      var e :| e in entries && EndsWith(e.name, ".md")
               && x == CopyItem(root + [".claude", "commands", e.name], [".claude", "commands", e.name]);
      var i := IndexOf(entries, e);
      CommandPath(root, e.name);
    }
  }

  lemma CommandPath(root: seq<string>, name: string)
    ensures [".claude", "commands"] + [name] == [".claude", "commands", name]
    ensures root + [".claude", "commands"] + [name] == root + [".claude", "commands", name]
  {
  }

  /** From `PRPs`, only the `*.md` entries of `templates` and `INITIAL.md` are listed, each keeping its
      `PRPs/...` path. */
  lemma PrpsKeepTheirPaths(tree: seq<Node>, root: seq<string>, x: CopyItem)
    requires x in PrpItems(tree, root)
    ensures x.source == root + x.target
    ensures x.target == ["PRPs", "INITIAL.md"]
            || (|x.target| == 3 && x.target[..2] == ["PRPs", "templates"] && EndsWith(x.target[2], ".md"))
  {
    var entries := ListDir(tree, ["PRPs", "templates"]);
    if x in MarkdownItems(entries, ["PRPs", "templates"], root) {
      MarkdownItemsMembers(entries, ["PRPs", "templates"], root, x);
      var i :| 0 <= i < |entries| && EndsWith(entries[i].name, ".md")
               && x == CopyItem(root + ["PRPs", "templates"] + [entries[i].name], ["PRPs", "templates"] + [entries[i].name]);
      assert root + ["PRPs", "templates"] + [entries[i].name] == root + (["PRPs", "templates"] + [entries[i].name]);
    }
  }

  lemma {:induction false} ExampleItemsMembers(entries: seq<Node>, root: seq<string>, x: CopyItem)
    ensures x in ExampleItemsOf(entries, root)
            <==> exists i :: 0 <= i < |entries| && entries[i].Dir?
                             && x.target in Walk(entries[i].children, ["examples", entries[i].name], NothingIgnored)
                             && x.source == root + x.target
    decreases |entries|
  {
    if |entries| > 0 {
      ExampleItemsMembers(entries[1..], root, x);
      var e := entries[0];
      if e.Dir? {
        var w := Walk(e.children, ["examples", e.name], NothingIgnored);
        if x in SameRelativeItems(w, root) {
          var j :| 0 <= j < |w| && SameRelativeItems(w, root)[j] == x;
          assert x.target == w[j];
        }
        if x.target in w && x.source == root + x.target {
          var j :| 0 <= j < |w| && w[j] == x.target;
          assert SameRelativeItems(w, root)[j] == x;
        }
      }
      if exists i :: 0 <= i < |entries| && entries[i].Dir?
                     && x.target in Walk(entries[i].children, ["examples", entries[i].name], NothingIgnored)
                     && x.source == root + x.target {
        var i :| 0 <= i < |entries| && entries[i].Dir?
                 && x.target in Walk(entries[i].children, ["examples", entries[i].name], NothingIgnored)
                 && x.source == root + x.target;
        if i > 0 {
          assert entries[1..][i - 1] == entries[i];
        }
      }
      if x in ExampleItemsOf(entries[1..], root) {
        var i :| 0 <= i < |entries[1..]| && entries[1..][i].Dir?
                 && x.target in Walk(entries[1..][i].children, ["examples", entries[1..][i].name], NothingIgnored)
                 && x.source == root + x.target;
        assert entries[i + 1] == entries[1..][i];
      }
    }
  }

  lemma NothingHidden(at: seq<string>, p: seq<string>)
    ensures Visible(at, p, NothingIgnored)
  {
  }

  /** Every file at any depth inside a subdirectory of `examples` is listed with its
      relative path, and nothing else from `examples`: files lying directly in
      `examples` are not. */
  lemma ExamplesAreFilesInSubdirectories(tree: seq<Node>, root: seq<string>, dirName: string, rest: seq<string>)
    requires ExampleItems(tree, root).Success?
    ensures CopyItem(root + (["examples", dirName] + rest), ["examples", dirName] + rest) in ExampleItems(tree, root).value
            <==> exists i :: 0 <= i < |ListDir(tree, ["examples"])| && ListDir(tree, ["examples"])[i].Dir?
                             && ListDir(tree, ["examples"])[i].name == dirName
                             && FileAt(ListDir(tree, ["examples"])[i].children, rest)
  {
    var entries := ListDir(tree, ["examples"]);
    var at := ["examples", dirName];
    var q := at + rest;
    var x := CopyItem(root + q, q);
    if !ExistsAt(tree, ["examples"]) {
      assert entries == [];
    }
    ExampleItemsMembers(entries, root, x);
    assert q[..|at|] == at && q[|at|..] == rest;
    forall i | 0 <= i < |entries| && entries[i].Dir?
      ensures q in Walk(entries[i].children, ["examples", entries[i].name], NothingIgnored)
              <==> entries[i].name == dirName && FileAt(entries[i].children, rest)
    {
      WalkMembers(entries[i].children, ["examples", entries[i].name], NothingIgnored, q);
      NothingHidden(["examples", entries[i].name], rest);
      if q in Walk(entries[i].children, ["examples", entries[i].name], NothingIgnored) {
        assert q[..2] == ["examples", entries[i].name];
        assert q[1] == dirName;
      }
    }
  }

  /** A file lying directly in `examples` is never listed. */
  lemma LooseExampleFilesNotListed(tree: seq<Node>, root: seq<string>, x: CopyItem)
    requires ExampleItems(tree, root).Success? && x in ExampleItems(tree, root).value
    ensures |x.target| >= 3 && x.target[0] == "examples" && x.source == root + x.target
  {
    var entries := ListDir(tree, ["examples"]);
    ExampleItemsMembers(entries, root, x);
    var i :| 0 <= i < |entries| && entries[i].Dir?
             && x.target in Walk(entries[i].children, ["examples", entries[i].name], NothingIgnored)
             && x.source == root + x.target;
    WalkMembers(entries[i].children, ["examples", entries[i].name], NothingIgnored, x.target);
    assert x.target[..2][0] == x.target[0];
  }

  /** Apart from `README.md`, every file keeps its relative path in the target. */
  lemma SourcesMirrorTargets(tree: seq<Node>, root: seq<string>, x: CopyItem)
    requires GetTemplateFiles(tree, root).Success? && x in GetTemplateFiles(tree, root).value
    ensures x.source == root + (if x.target == ["README_TEMPLATE.md"] then ["README.md"] else x.target)
  {
    assert ["README_TEMPLATE.md"] != ["CLAUDE.md"] by {
      assert |"CLAUDE.md"| != |"README_TEMPLATE.md"|;
    }
    if x in CommandItems(tree, root) {
      CommandsAreMarkdownEntries(tree, root, x);
      var e :| e in ListDir(tree, [".claude", "commands"]) && EndsWith(e.name, ".md")
               && x == CopyItem(root + [".claude", "commands", e.name], [".claude", "commands", e.name]);
      assert x.target != ["README_TEMPLATE.md"];
    } else if x in PrpItems(tree, root) {
      PrpsKeepTheirPaths(tree, root, x);
    } else if x in ExampleItems(tree, root).value {
      LooseExampleFilesNotListed(tree, root, x);
    }
  }
}
