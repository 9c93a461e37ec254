/** The part of the two template copiers that acts on the target directory, shared by
    `use-cases/mcp-server/copy_template.py` and `use-cases/pydantic-ai/copy_template.py`:
    creating the destination directories, copying file by file while counting the
    successes, checking that the essential files arrived, and the checks `main` makes
    before anything is written.

    Paths are sequences of names. The file system is represented by what the code asks
    of it: whether a copy succeeds (an oracle) and whether a path exists afterwards. */
module CopyRun {
  import opened Text

  /** One planned copy: where the file is in the template, and where it goes, relative
      to the target directory. */
  datatype CopyItem = CopyItem(source: seq<string>, target: seq<string>)

  // ---------------------------------------------------------------------------
  // Directory structure
  // ---------------------------------------------------------------------------

  function ParentOf(p: seq<string>): seq<string> {
    if |p| == 0 then [] else p[..|p| - 1]
  }

  /** The directories `create_directory_structure` asks for, as paths below the target:
      the distinct parents of the destinations. The MCP copier leaves out the target
      itself (its parent `.`), the PydanticAI copier keeps it. */
  function DirectoriesToCreate(files: seq<CopyItem>, includeRoot: bool): (r: set<seq<string>>)
    ensures forall d :: d in r <==> (exists i :: 0 <= i < |files| && ParentOf(files[i].target) == d)
                                     && (includeRoot || d != [])
  {
    set i | 0 <= i < |files| && (includeRoot || ParentOf(files[i].target) != []) :: ParentOf(files[i].target)
  }

  /** `mkdir(parents=True, exist_ok=True)` on each requested directory: the directory and
      every directory above it exist afterwards. */
  ghost predicate MadeBy(requested: set<seq<string>>, d: seq<string>) {
    exists r :: r in requested && |d| <= |r| && r[..|d|] == d
  }

  /** After the target is created and the structure is made, every destination has its
      parent directory, whichever copier ran. */
  lemma ParentsExistBeforeCopy(files: seq<CopyItem>, includeRoot: bool, i: nat)
    requires i < |files|
    ensures var d := ParentOf(files[i].target);
            d == [] || MadeBy(DirectoriesToCreate(files, includeRoot), d)
  {
    var d := ParentOf(files[i].target);
    if d != [] {
      assert d in DirectoriesToCreate(files, includeRoot);
      assert d[..|d|] == d;
    }
  }

  // ---------------------------------------------------------------------------
  // Copying
  // ---------------------------------------------------------------------------

  /** The items whose copy succeeds, in order. */
  function Succeeding(files: seq<CopyItem>, copyOk: CopyItem -> bool): (r: seq<CopyItem>)
    ensures |r| <= |files|
    ensures forall x :: x in r ==> x in files && copyOk(x)
    decreases |files|
  {
    if |files| == 0 then []
    else (if copyOk(files[0]) then [files[0]] else []) + Succeeding(files[1..], copyOk)
  }

  lemma {:induction false} SucceedingHasEveryGoodItem(files: seq<CopyItem>, copyOk: CopyItem -> bool, i: nat)
    requires i < |files| && copyOk(files[i])
    ensures files[i] in Succeeding(files, copyOk)
    decreases i
  {
    if i > 0 {
      assert files[1..][i - 1] == files[i];
      SucceedingHasEveryGoodItem(files[1..], copyOk, i - 1);
    }
  }

  lemma {:induction false} SucceedingAllIffNoFailure(files: seq<CopyItem>, copyOk: CopyItem -> bool)
    ensures |Succeeding(files, copyOk)| == |files| <==> forall i :: 0 <= i < |files| ==> copyOk(files[i])
    decreases |files|
  {
    if |files| > 0 {
      SucceedingAllIffNoFailure(files[1..], copyOk);
      if forall i :: 0 <= i < |files[1..]| ==> copyOk(files[1..][i]) {
        assert forall i :: 1 <= i < |files| ==> copyOk(files[i]) by {
          forall i | 1 <= i < |files| ensures copyOk(files[i]) {
            assert files[i] == files[1..][i - 1];
          }
        }
      }
      if forall i :: 0 <= i < |files| ==> copyOk(files[i]) {
        forall i | 0 <= i < |files[1..]| ensures copyOk(files[1..][i]) {
          assert files[1..][i] == files[i + 1];
        }
      }
    }
  }

  /** `copy_template_files`: every item is attempted, a failing copy is reported and
      skipped, and the result counts the successes. */
  method CopyTemplateFiles(files: seq<CopyItem>, copyOk: CopyItem -> bool) returns (count: nat, copied: seq<CopyItem>)
    ensures copied == Succeeding(files, copyOk)
    ensures count == |copied| <= |files|
    ensures count == |files| <==> forall i :: 0 <= i < |files| ==> copyOk(files[i])
    ensures forall i :: 0 <= i < |files| && copyOk(files[i]) ==> files[i] in copied
  {
    count, copied := 0, [];
    var k := 0;
    while k < |files|
      invariant k <= |files|
      invariant copied + Succeeding(files[k..], copyOk) == Succeeding(files, copyOk)
      invariant count == |copied|
    {
      assert files[k..][1..] == files[k + 1..];
      if copyOk(files[k]) {
        copied := copied + [files[k]];
        count := count + 1;
      }
      k := k + 1;
    }
    assert files[k..] == [];
    SucceedingAllIffNoFailure(files, copyOk);
    forall i | 0 <= i < |files| && copyOk(files[i]) ensures files[i] in copied {
      SucceedingHasEveryGoodItem(files, copyOk, i);
    }
  }

  // ---------------------------------------------------------------------------
  // Integrity check
  // ---------------------------------------------------------------------------

  /** The ten files the MCP server template must contain. */
  const McpEssential: seq<string> := [
    "CLAUDE.md",
    "README_TEMPLATE.md",
    ".claude/commands/prp-mcp-create.md",
    ".claude/commands/prp-mcp-execute.md",
    "PRPs/templates/prp_mcp_base.md",
    "PRPs/INITIAL.md",
    "package.json",
    "tsconfig.json",
    "src/index.ts",
    "src/types.ts"
  ]

  /** The eight files the PydanticAI template must contain. */
  const PydanticEssential: seq<string> := [
    "CLAUDE.md",
    "README_TEMPLATE.md",
    ".claude/commands/generate-pydantic-ai-prp.md",
    ".claude/commands/execute-pydantic-ai-prp.md",
    "PRPs/templates/prp_pydantic_ai_base.md",
    "PRPs/INITIAL.md",
    "examples/basic_chat_agent/agent.py",
    "examples/testing_examples/test_agent_patterns.py"
  ]

  /** `validate_template_integrity`: the essential paths that do not exist, in list
      order, and whether there are none. */
  method ValidateTemplateIntegrity(essential: seq<string>, present: seq<string> -> bool)
    returns (complete: bool, missing: seq<string>)
    ensures forall p :: p in missing <==> p in essential && !present(Split(p, '/'))
    ensures |missing| <= |essential|
    ensures complete <==> AllPresent(essential, present)
    ensures complete <==> |missing| == 0
  {
    missing := [];
    var k := 0;
    while k < |essential|
      invariant k <= |essential| && |missing| <= k
      invariant forall p :: p in missing <==> p in essential[..k] && !present(Split(p, '/'))
    {
      assert essential[..k + 1] == essential[..k] + [essential[k]];
      if !present(Split(essential[k], '/')) {
        missing := missing + [essential[k]];
      }
      k := k + 1;
    }
    assert essential[..k] == essential;
    complete := |missing| == 0;
    if !complete {
      assert missing[0] in missing;
    }
  }

  // ---------------------------------------------------------------------------
  // The run as a whole
  // ---------------------------------------------------------------------------

  predicate AllPresent(essential: seq<string>, present: seq<string> -> bool) {
    forall i :: 0 <= i < |essential| ==> present(Split(essential[i], '/'))
  }

  /** When every planned copy succeeds and every essential path is one of the planned
      destinations, the integrity check passes on the resulting target. */
  lemma FullCopyPassesIntegrity(files: seq<CopyItem>, copyOk: CopyItem -> bool, essential: seq<string>,
                                present: seq<string> -> bool)
    requires forall i :: 0 <= i < |files| ==> copyOk(files[i])
    requires forall x :: x in Succeeding(files, copyOk) ==> present(x.target)
    requires forall e :: e in essential ==> exists i :: 0 <= i < |files| && files[i].target == Split(e, '/')
    ensures AllPresent(essential, present)
  {
    forall k | 0 <= k < |essential| ensures present(Split(essential[k], '/')) {
      assert essential[k] in essential;
      var i :| 0 <= i < |files| && files[i].target == Split(essential[k], '/');
      SucceedingHasEveryGoodItem(files, copyOk, i);
    }
  }

  /** What the resolved target path is before the run. */
  datatype TargetState = Absent | IsFile | EmptyDir | NonEmptyDir

  datatype Outcome =
    | ShowHelp              // no command-line arguments at all
    | TargetIsFile
    | TargetNotEmpty        // non-empty directory without `--force`
    | NoTemplateFiles
    | DryRun(listed: seq<seq<string>>)
    | Copied(count: nat, total: nat, complete: bool)

  /** The course of `main`: how it ends, whether the template was scanned, and whether
      anything was created or copied. */
  datatype Run = Run(outcome: Outcome, scanned: bool, wrote: bool)

  function Targets(files: seq<CopyItem>): (r: seq<seq<string>>)
    ensures |r| == |files| && forall i :: 0 <= i < |files| ==> r[i] == files[i].target
  {
    seq(|files|, i requires 0 <= i < |files| => files[i].target)
  }

  /** `main`, with the scan result, the copy oracle, the integrity verdict of the
      finished target and the argument count supplied from outside. */
  function RunMain(argCount: nat, state: TargetState, force: bool, dryRun: bool,
                scan: seq<CopyItem>, copyOk: CopyItem -> bool, complete: bool): (r: Run)
    ensures r.wrote <==> r.outcome.Copied?
    ensures argCount == 0 ==> r == Run(ShowHelp, false, false)
    ensures state == IsFile || (state == NonEmptyDir && !force) ==> !r.scanned && !r.wrote
    ensures dryRun ==> !r.wrote
    ensures r.outcome.DryRun? ==> r.outcome.listed == Targets(scan)
    ensures r.outcome.Copied? ==> r.outcome.count == |Succeeding(scan, copyOk)| <= r.outcome.total == |scan|
  {
    if argCount == 0 then Run(ShowHelp, false, false)
    else if state == IsFile then Run(TargetIsFile, false, false)
    else if state == NonEmptyDir && !force then Run(TargetNotEmpty, false, false)
    else if |scan| == 0 then Run(NoTemplateFiles, true, false)
    else if dryRun then Run(DryRun(Targets(scan)), true, false)
    else Run(Copied(|Succeeding(scan, copyOk)|, |scan|, complete), true, true)
  }

  /** `--force` only lifts the non-empty check: with it, an existing directory is
      treated exactly like an empty one. */
  lemma ForceOnlyLiftsNonEmptyCheck(argCount: nat, dryRun: bool, scan: seq<CopyItem>, copyOk: CopyItem -> bool, complete: bool)
    ensures RunMain(argCount, NonEmptyDir, true, dryRun, scan, copyOk, complete)
            == RunMain(argCount, EmptyDir, false, dryRun, scan, copyOk, complete)
    ensures RunMain(argCount, EmptyDir, true, dryRun, scan, copyOk, complete)
            == RunMain(argCount, Absent, false, dryRun, scan, copyOk, complete)
  {
  }
}
