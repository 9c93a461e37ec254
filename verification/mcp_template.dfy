/** `get_template_files` of the MCP server copier
    (`use-cases/mcp-server/copy_template.py`): the ignore file's patterns plus the
    copier's own name decide what the walk of the template prunes and skips, and each
    `README.md` is copied as `README_TEMPLATE.md`. */
module McpTemplate {
  import opened Text
  import opened ShellGlob
  import opened IgnoreRules
  import opened TemplateWalk
  import opened CopyRun

  /** The copier's own file name, always added to the patterns. */
  const ScriptName: string := "copy_template.py"

  function Rules(src: IgnoreSource): (r: set<string>)
    ensures ScriptName in r && ParseGitignore(src) <= r
  {
    ParseGitignore(src) + {ScriptName}
  }

  /** The verdict the walk uses for a path below the template root. */
  function IgnoredUnder(patterns: set<string>): seq<string> -> bool {
    rel => Ignored(RelString(rel), patterns)
  }

  /** `README.md` is renamed in whatever directory it sits; every other name is kept. */
  function TargetFor(rel: seq<string>): seq<string> {
    if |rel| > 0 && rel[|rel| - 1] == "README.md" then rel[..|rel| - 1] + ["README_TEMPLATE.md"]
    else rel
  }

  function GetTemplateFiles(tree: seq<Node>, root: seq<string>, src: IgnoreSource): (r: seq<CopyItem>)
    ensures |r| == |Walk(tree, [], IgnoredUnder(Rules(src)))|
    ensures forall i :: 0 <= i < |r| ==> |root| < |r[i].source| && r[i].source[..|root|] == root
  {
    var rels := Walk(tree, [], IgnoredUnder(Rules(src)));
    assert forall i :: 0 <= i < |rels| ==> |rels[i]| > 0 by {
      forall i | 0 <= i < |rels| ensures |rels[i]| > 0 {
        WalkMembers(tree, [], IgnoredUnder(Rules(src)), rels[i]);
      }
    }
    seq(|rels|, i requires 0 <= i < |rels| => CopyItem(root + rels[i], TargetFor(rels[i])))
  }

  // ---------------------------------------------------------------------------
  // Properties
  // ---------------------------------------------------------------------------

  /** The walk asks `should_ignore_path` about paths under the root, where its verdict
      is the pattern set's verdict on the relative path. */
  lemma WalkVerdictIsShouldIgnore(root: seq<string>, rel: seq<string>, patterns: set<string>)
    ensures ShouldIgnorePath(root + rel, root, patterns) == IgnoredUnder(patterns)(rel)
  {
    assert (root + rel)[..|root|] == root && (root + rel)[|root|..] == rel;
  }

  /** The sources of the plan are the walk's paths under the root. */
  lemma SourcesAreWalkedPaths(tree: seq<Node>, root: seq<string>, src: IgnoreSource, rel: seq<string>)
    ensures (exists i :: 0 <= i < |GetTemplateFiles(tree, root, src)| && GetTemplateFiles(tree, root, src)[i].source == root + rel)
            <==> rel in Walk(tree, [], IgnoredUnder(Rules(src)))
  {
    var rels := Walk(tree, [], IgnoredUnder(Rules(src)));
    var r := GetTemplateFiles(tree, root, src);
    assert forall i :: 0 <= i < |r| ==> r[i].source == root + rels[i];
    SourcesUnderRoot(r, rels, root, rel);
  }

  lemma SourcesUnderRoot(r: seq<CopyItem>, rels: seq<seq<string>>, root: seq<string>, rel: seq<string>)
    requires |r| == |rels| && forall i :: 0 <= i < |r| ==> r[i].source == root + rels[i]
    ensures (exists i :: 0 <= i < |r| && r[i].source == root + rel) <==> rel in rels
  {
    if exists i :: 0 <= i < |r| && r[i].source == root + rel {
      var i :| 0 <= i < |r| && r[i].source == root + rel;
      assert rels[i] == (root + rels[i])[|root|..];
      assert rel == (root + rel)[|root|..];
    }
    if rel in rels {
      var i :| 0 <= i < |rels| && rels[i] == rel;
      assert r[i].source == root + rel;
    }
  }

  /** A file of the template is copied iff neither it nor any directory above it is
      covered by a pattern of the ignore file or by the copier's own name. */
  lemma SelectedIffVisible(tree: seq<Node>, root: seq<string>, src: IgnoreSource, rel: seq<string>)
    ensures (exists i :: 0 <= i < |GetTemplateFiles(tree, root, src)| && GetTemplateFiles(tree, root, src)[i].source == root + rel)
            <==> (FileAt(tree, rel)
                  && forall k :: 1 <= k <= |rel| ==> !Ignored(RelString(rel[..k]), Rules(src)))
  {
    var ig := IgnoredUnder(Rules(src));
    SourcesAreWalkedPaths(tree, root, src, rel);
    WalkMembers(tree, [], ig, rel);
    assert rel[0..] == rel;
    forall k | 1 <= k <= |rel| ensures [] + rel[..k] == rel[..k] { }
  }

  lemma NoBackslash(s: string)
    requires forall i :: 0 <= i < |s| ==> s[i] != '\\'
    ensures RelString([s]) == (if |s| == 0 then "" else s)
  {
  }

  /** The copier never copies itself from the template root, whatever the ignore file
      says. */
  lemma ScriptNeverSelected(tree: seq<Node>, root: seq<string>, src: IgnoreSource)
    ensures forall i :: 0 <= i < |GetTemplateFiles(tree, root, src)| ==> GetTemplateFiles(tree, root, src)[i].source != root + [ScriptName]
  {
    var rel := [ScriptName];
    assert RelString(rel) == ScriptName by {
      NoBackslash(ScriptName);
    }
    assert !EndsWith(ScriptName, "/");
    assert MatchesPattern(ScriptName, ScriptName);
    assert Ignored(RelString(rel[..1]), Rules(src)) by {
      assert rel[..1] == rel;
    }
    SelectedIffVisible(tree, root, src, rel);
  }

  /** Only the root-level copy is excluded by name: a `copy_template.py` in a
      subdirectory is not covered by the added pattern. */
  lemma NestedScriptNotCoveredByOwnName()
    ensures !MatchesPattern("tools/copy_template.py", ScriptName)
  {
    assert forall i :: 0 <= i < |ScriptName| ==> !IsMeta(ScriptName[i]);
    assert !EndsWith(ScriptName, "/");
    PlainPattern("tools/copy_template.py", ScriptName);
    assert "tools/copy_template.py"[..17][0] != (ScriptName + "/")[0];
  }

  /** Every `README.md`, at any depth, is copied to `README_TEMPLATE.md` in the same
      directory; every other file keeps its relative path. */
  lemma ReadmeRenamedAtEveryDepth(parent: seq<string>, name: string)
    ensures TargetFor(parent + [name])
            == parent + [if name == "README.md" then "README_TEMPLATE.md" else name]
  {
    assert (parent + [name])[..|parent|] == parent;
  }

  /** The rename can make two files share a destination: a directory holding both
      `README.md` and `README_TEMPLATE.md` sends both to the same place, and the later
      copy replaces the earlier one. */
  lemma RenameCanCollide(parent: seq<string>)
    ensures TargetFor(parent + ["README.md"]) == TargetFor(parent + ["README_TEMPLATE.md"])
  {
    ReadmeRenamedAtEveryDepth(parent, "README.md");
    ReadmeRenamedAtEveryDepth(parent, "README_TEMPLATE.md");
  }

  /** The copy plan pairs each selected file with its destination. */
  lemma TargetsFollowSources(tree: seq<Node>, root: seq<string>, src: IgnoreSource, i: nat)
    requires i < |GetTemplateFiles(tree, root, src)|
    ensures var item := GetTemplateFiles(tree, root, src)[i];
            item.target == TargetFor(item.source[|root|..])
  {
    var rels := Walk(tree, [], IgnoredUnder(Rules(src)));
    assert (root + rels[i])[|root|..] == rels[i];
  }
}
