/** The top-down walk of the template directory in `get_template_files`
    (`use-cases/mcp-server/copy_template.py`): `os.walk` lists a directory's files,
    the directories judged ignored are removed from the list before the walk descends,
    and every file that is not itself ignored is emitted.

    A directory is a sequence of entries in listing order; a path is the sequence of
    names from the template root. The ignore verdict is a parameter, so the walk is
    stated once for any rule set. */
module TemplateWalk {

  datatype Node = File(name: string) | Dir(name: string, children: seq<Node>)

  // ---------------------------------------------------------------------------
  // The walk
  // ---------------------------------------------------------------------------

  /** Everything emitted below the directory at path `at` whose entries are `children`:
      first the directory's own files, then the kept subdirectories, in listing order. */
  function Walk(children: seq<Node>, at: seq<string>, ignored: seq<string> -> bool): seq<seq<string>>
    decreases children, 1
  {
    FilesHere(children, at, ignored) + Descend(children, at, ignored)
  }

  function FilesHere(children: seq<Node>, at: seq<string>, ignored: seq<string> -> bool): seq<seq<string>>
    decreases |children|
  {
    if |children| == 0 then []
    else
      var c := children[0];
      (if c.File? && !ignored(at + [c.name]) then [at + [c.name]] else [])
      + FilesHere(children[1..], at, ignored)
  }

  /** The subdirectories that survive the pruning of `dirs[:]`, each walked in turn. */
  function Descend(children: seq<Node>, at: seq<string>, ignored: seq<string> -> bool): seq<seq<string>>
    decreases children, 0
  {
    if |children| == 0 then []
    else
      var c := children[0];
      (if c.Dir? && !ignored(at + [c.name]) then Walk(c.children, at + [c.name], ignored) else [])
      + Descend(children[1..], at, ignored)
  }

  // ---------------------------------------------------------------------------
  // Reference definition: which files the walk should emit
  // ---------------------------------------------------------------------------

  /** `p` (relative to the directory holding `children`) names a file of the tree. */
  ghost predicate FileAt(children: seq<Node>, p: seq<string>)
    decreases children
  {
    |p| >= 1
    && exists i :: 0 <= i < |children| && children[i].name == p[0]
                   && (if |p| == 1 then children[i].File?
                       else children[i].Dir? && FileAt(children[i].children, p[1..]))
  }

  /** No directory on the way to `p`, nor `p` itself, is ignored. */
  ghost predicate Visible(at: seq<string>, p: seq<string>, ignored: seq<string> -> bool) {
    forall k :: 1 <= k <= |p| ==> !ignored(at + p[..k])
  }

  /** The walk's contract: a path is emitted iff it names a file of the tree and
      neither the file nor any directory above it is ignored. */
  ghost predicate Emitted(children: seq<Node>, at: seq<string>, ignored: seq<string> -> bool, q: seq<string>) {
    |at| < |q| && q[..|at|] == at && FileAt(children, q[|at|..]) && Visible(at, q[|at|..], ignored)
  }

  // ---------------------------------------------------------------------------
  // Proof
  // ---------------------------------------------------------------------------

  lemma {:induction false} FilesHereMembers(children: seq<Node>, at: seq<string>, ignored: seq<string> -> bool, q: seq<string>)
    ensures q in FilesHere(children, at, ignored)
            <==> exists i :: 0 <= i < |children| && children[i].File? && q == at + [children[i].name] && !ignored(q)
    decreases |children|
  {
    if |children| > 0 {
      FilesHereMembers(children[1..], at, ignored, q);
      if exists i :: 0 <= i < |children| && children[i].File? && q == at + [children[i].name] && !ignored(q) {
        var i :| 0 <= i < |children| && children[i].File? && q == at + [children[i].name] && !ignored(q);
        if i > 0 {
          assert children[1..][i - 1] == children[i];
        }
      }
      if q in FilesHere(children[1..], at, ignored) {
        var i :| 0 <= i < |children[1..]| && children[1..][i].File? && q == at + [children[1..][i].name] && !ignored(q);
        assert children[i + 1] == children[1..][i];
      }
    }
  }

  /** The walk of one entry, when it is a kept directory. */
  ghost predicate InKeptDir(c: Node, at: seq<string>, ignored: seq<string> -> bool, q: seq<string>) {
    c.Dir? && !ignored(at + [c.name]) && q in Walk(c.children, at + [c.name], ignored)
  }

  lemma {:induction false} DescendMembers(children: seq<Node>, at: seq<string>, ignored: seq<string> -> bool, q: seq<string>)
    ensures q in Descend(children, at, ignored)
            <==> exists i :: 0 <= i < |children| && InKeptDir(children[i], at, ignored, q)
    decreases |children|
  {
    if |children| > 0 {
      DescendMembers(children[1..], at, ignored, q);
      if exists i :: 0 <= i < |children| && InKeptDir(children[i], at, ignored, q) {
        var i :| 0 <= i < |children| && InKeptDir(children[i], at, ignored, q);
        if i > 0 {
          assert children[1..][i - 1] == children[i];
        }
      }
      if q in Descend(children[1..], at, ignored) {
        var i :| 0 <= i < |children[1..]| && InKeptDir(children[1..][i], at, ignored, q);
        assert children[i + 1] == children[1..][i];
      }
    }
  }

  lemma VisibleStep(at: seq<string>, p: seq<string>, ignored: seq<string> -> bool)
    requires |p| >= 1
    ensures Visible(at, p, ignored) <==> !ignored(at + [p[0]]) && Visible(at + [p[0]], p[1..], ignored)
  {
    assert p[..1] == [p[0]];
    forall k | 2 <= k <= |p|
      ensures at + p[..k] == (at + [p[0]]) + p[1..][..k - 1]
    {
      assert p[..k] == [p[0]] + p[1..][..k - 1];
    }
    if !ignored(at + [p[0]]) && Visible(at + [p[0]], p[1..], ignored) {
      forall k | 1 <= k <= |p|
        ensures !ignored(at + p[..k])
      {
        if k >= 2 {
          assert !ignored((at + [p[0]]) + p[1..][..k - 1]);
        }
      }
    }
    if Visible(at, p, ignored) {
      forall k | 1 <= k <= |p[1..]|
        ensures !ignored((at + [p[0]]) + p[1..][..k])
      {
        assert !ignored(at + p[..k + 1]);
      }
    }
  }

  /** One level of the walk: a deeper path is emitted iff it is emitted by the walk
      of the kept subdirectory it lies in. */
  lemma DeepStep(children: seq<Node>, at: seq<string>, ignored: seq<string> -> bool, q: seq<string>, i: nat)
    requires i < |children| && children[i].Dir? && |q| > |at| + 1 && q[..|at|] == at && q[|at|] == children[i].name
    requires Emitted(children[i].children, at + [children[i].name], ignored, q) <==> q in Walk(children[i].children, at + [children[i].name], ignored)
    ensures InKeptDir(children[i], at, ignored, q)
            <==> (FileAt(children[i].children, q[|at| + 1..]) && Visible(at, q[|at|..], ignored))
  {
    var at' := at + [children[i].name];
    var p := q[|at|..];
    assert q[..|at'|] == at' by {
      assert q[..|at| + 1] == q[..|at|] + [q[|at|]];
    }
    assert p[0] == q[|at|] && p[1..] == q[|at'|..];
    VisibleStep(at, p, ignored);
  }

  /** The walk emits exactly the visible files of the tree. */
  lemma {:induction false} WalkMembers(children: seq<Node>, at: seq<string>, ignored: seq<string> -> bool, q: seq<string>)
    ensures q in Walk(children, at, ignored) <==> Emitted(children, at, ignored, q)
    decreases children, 1
  {
    if |at| < |q| && q[..|at|] == at {
      if |q| == |at| + 1 {
        WalkShallow(children, at, ignored, q);
      } else {
        WalkDeep(children, at, ignored, q);
      }
    } else {
      WalkOutside(children, at, ignored, q);
    }
  }

  /** A path one level below `at` can only be one of the directory's own files. */
  lemma {:induction false} WalkShallow(children: seq<Node>, at: seq<string>, ignored: seq<string> -> bool, q: seq<string>)
    requires |q| == |at| + 1 && q[..|at|] == at
    ensures q in Walk(children, at, ignored) <==> Emitted(children, at, ignored, q)
    decreases children, 0
  {
    FilesHereMembers(children, at, ignored, q);
    DescendMembers(children, at, ignored, q);
    var p := q[|at|..];
    assert q == at + [p[0]];
    OneStepPath(children, at, p, ignored);
    forall i | 0 <= i < |children| && children[i].Dir?
      ensures !InKeptDir(children[i], at, ignored, q)
    {
      WalkMembers(children[i].children, at + [children[i].name], ignored, q);
    }
  }

  lemma OneStepPath(children: seq<Node>, at: seq<string>, p: seq<string>, ignored: seq<string> -> bool)
    requires |p| == 1
    ensures Visible(at, p, ignored) <==> !ignored(at + [p[0]])
    ensures FileAt(children, p) <==> exists i :: 0 <= i < |children| && children[i].File? && children[i].name == p[0]
  {
    assert p[..1] == p == [p[0]];
  }

  /** A path two or more levels below `at` comes from the walk of the subdirectory it
      lies in. */
  lemma {:induction false} WalkDeep(children: seq<Node>, at: seq<string>, ignored: seq<string> -> bool, q: seq<string>)
    requires |q| > |at| + 1 && q[..|at|] == at
    ensures q in Walk(children, at, ignored) <==> Emitted(children, at, ignored, q)
    decreases children, 0
  {
    FilesHereMembers(children, at, ignored, q);
    DescendMembers(children, at, ignored, q);
    var p := q[|at|..];
    forall i | 0 <= i < |children|
      ensures !(children[i].File? && q == at + [children[i].name])
    {
    }
    forall i | 0 <= i < |children| && InKeptDir(children[i], at, ignored, q)
      ensures children[i].name == p[0]
    {
      WalkMembers(children[i].children, at + [children[i].name], ignored, q);
      assert q[..|at| + 1][|at|] == q[|at|];
    }
    forall i | 0 <= i < |children| && children[i].Dir? && children[i].name == p[0]
      ensures InKeptDir(children[i], at, ignored, q)
              <==> (FileAt(children[i].children, p[1..]) && Visible(at, p, ignored))
    {
      WalkMembers(children[i].children, at + [children[i].name], ignored, q);
      DeepStep(children, at, ignored, q, i);
      assert p[1..] == q[|at| + 1..];
    }
  }

  /** A path that does not lie below `at` is never emitted there. */
  lemma {:induction false} WalkOutside(children: seq<Node>, at: seq<string>, ignored: seq<string> -> bool, q: seq<string>)
    requires !(|at| < |q| && q[..|at|] == at)
    ensures q !in Walk(children, at, ignored) && !Emitted(children, at, ignored, q)
    decreases children, 0
  {
    FilesHereMembers(children, at, ignored, q);
    DescendMembers(children, at, ignored, q);
    forall i | 0 <= i < |children| && children[i].Dir?
      ensures !InKeptDir(children[i], at, ignored, q)
    {
      WalkMembers(children[i].children, at + [children[i].name], ignored, q);
      if |at| + 1 < |q| {
        assert q[..|at|] == q[..|at| + 1][..|at|];
      }
    }
  }

  /** Pruning: nothing at or below an ignored path is ever emitted. */
  lemma PrunedDirectoryContributesNothing(children: seq<Node>, ignored: seq<string> -> bool, dir: seq<string>, q: seq<string>)
    requires 1 <= |dir| <= |q| && q[..|dir|] == dir && ignored(dir)
    ensures q !in Walk(children, [], ignored)
  {
    WalkMembers(children, [], ignored, q);
    assert [] + q[0..][..|dir|] == dir;
  }
}
