/**
  The part of the file system `create_robot` touches (lib/commands/create.rb,
  lines 26-63): a tree of directories and files addressed by paths, the
  three operations the command performs on it (`Dir.mkdir`, `File.open`
  for writing, `File.copy`), and the run of a list of such operations that
  stops at the first one that raises.
 */
module FileSystem {
  import opened Wrappers

  /** A path as its components from the root; `[]` is the root itself. */
  type Path = seq<string>

  datatype Node = Directory | File(content: string)

  /** Every path that exists, other than the root, with what it is. */
  type Tree = map<Path, Node>

  /** The paths of a sequence, as a set. */
  function PathSet(ps: seq<Path>): (r: set<Path>)
  {
    set p | p in ps
  }

  function Parent(p: Path): (r: Path)
    requires p != []
    ensures |r| == |p| - 1 && r == p[..|p| - 1]
  {
    p[..|p| - 1]
  }

  predicate IsDirectory(t: Tree, p: Path)
  {
    p == [] || (p in t && t[p].Directory?)
  }

  /** Whatever exists sits in a directory that exists. */
  predicate Wellformed(t: Tree)
  {
    forall p :: p in t ==> p != [] && IsDirectory(t, Parent(p))
  }

  /** The `Errno` exceptions the three operations raise. */
  datatype FsError =
    | AlreadyExists(path: Path)   // EEXIST
    | NoEntry(path: Path)         // ENOENT
    | NotADirectory(path: Path)   // ENOTDIR
    | IsADirectory(path: Path)    // EISDIR

  datatype Action =
    | MakeDir(path: Path)                // `Dir.mkdir(path)`
    | WriteFile(path: Path, text: string) // `File.open(path, "w") { |f| f.puts ... }`
    | CopyFile(source: Path, dest: Path)  // `File.copy(source, dest)`

  /**
    Looking up the directory `q` from the root, on behalf of an operation
    on `p`: ENOENT at the first component that is missing, ENOTDIR at the
    first one that is a file. `q[..k]` is the next component to look at.
   */
  function Walk(t: Tree, q: Path, k: nat, p: Path): (e: FsError)
    requires 1 <= k <= |q| && !IsDirectory(t, q)
    decreases |q| - k
    ensures e.path == p && (e.NoEntry? || e.NotADirectory?)
  {
    if q[..k] !in t then NoEntry(p)
    else if t[q[..k]].File? then NotADirectory(p)
    else assert q[..|q|] == q; Walk(t, q, k + 1, p)
  }

  /** `q[..k]` is the first component of `q`, from the root, that is not a directory. */
  predicate FirstNonDirectory(t: Tree, q: Path, k: int)
  {
    && 1 <= k <= |q|
    && !IsDirectory(t, q[..k])
    && forall j :: 1 <= j < k ==> IsDirectory(t, q[..j])
  }

  /** The walk stops at the first component that is not a directory, and
      what that component is decides between ENOTDIR and ENOENT. */
  lemma {:induction false} WalkMeaning(t: Tree, q: Path, k: nat, p: Path)
    requires 1 <= k <= |q| && !IsDirectory(t, q)
    requires forall j :: 1 <= j < k ==> IsDirectory(t, q[..j])
    decreases |q| - k
    ensures exists i :: FirstNonDirectory(t, q, i)
    ensures forall i :: FirstNonDirectory(t, q, i) ==>
      Walk(t, q, k, p) == if q[..i] in t then NotADirectory(p) else NoEntry(p)
  {
    if !IsDirectory(t, q[..k]) {
      assert FirstNonDirectory(t, q, k);
    } else {
      assert q[..|q|] == q;
      WalkMeaning(t, q, k + 1, p);
    }
  }

  /** Why `p` cannot be created: a directory above it is missing or is a file. */
  function ParentError(t: Tree, p: Path): (e: FsError)
    requires p != [] && !IsDirectory(t, Parent(p))
    ensures e.path == p && (e.NoEntry? || e.NotADirectory?)
  {
    Walk(t, Parent(p), 1, p)
  }

  /**
    The error names the first directory above `p`, from the root, that is
    not there as a directory: ENOTDIR when it is a file, ENOENT when it is
    missing.
   */
  lemma ParentErrorMeaning(t: Tree, p: Path)
    requires p != [] && !IsDirectory(t, Parent(p))
    ensures exists k :: FirstNonDirectory(t, Parent(p), k)
    ensures forall k :: FirstNonDirectory(t, Parent(p), k) ==>
      ParentError(t, p) == if Parent(p)[..k] in t then NotADirectory(p) else NoEntry(p)
  {
    WalkMeaning(t, Parent(p), 1, p);
  }

  /** In a well-formed tree every directory above an existing path exists. */
  lemma {:induction false} AncestorsAreDirectories(t: Tree, q: Path, j: nat)
    requires Wellformed(t) && q in t && 1 <= j < |q|
    decreases |q|
    ensures IsDirectory(t, q[..j])
  {
    var r := Parent(q);
    assert IsDirectory(t, r);
    if j < |r| {
      assert r in t;
      assert r[..j] == q[..j];
      AncestorsAreDirectories(t, r, j);
    } else {
      assert q[..j] == r;
    }
  }

  /** In a well-formed tree, a parent that exists but is not a directory is ENOTDIR. */
  lemma ParentIsFile(t: Tree, p: Path)
    requires Wellformed(t) && p != [] && Parent(p) in t && !IsDirectory(t, Parent(p))
    ensures ParentError(t, p) == NotADirectory(p)
  {
    var q := Parent(p);
    forall j | 1 <= j < |q| ensures IsDirectory(t, q[..j]) {
      AncestorsAreDirectories(t, q, j);
    }
    assert q[..|q|] == q;
    assert FirstNonDirectory(t, q, |q|);
    ParentErrorMeaning(t, p);
  }

  /** `mkdir a/b/c` where `a` is a file: the walk stops at `a` with ENOTDIR,
      although `a/b` is merely missing. */
  lemma FileHighAbove()
    ensures Step(map[["a"] := File("")], MakeDir(["a", "b", "c"])) == Err(NotADirectory(["a", "b", "c"]))
  {
    var t: Tree := map[["a"] := File("")];
    var p: Path := ["a", "b", "c"];
    assert Parent(p) == ["a", "b"] && Parent(p)[..1] == ["a"];
    assert FirstNonDirectory(t, Parent(p), 1);
    ParentErrorMeaning(t, p);
  }

  /** Why `File.copy` cannot read a source that does not exist: its `stat`
      fails on the source itself or on a directory above it. */
  function SourceError(t: Tree, s: Path): (e: FsError)
    requires s != [] && s !in t
    ensures e.path == s && (e.NoEntry? || e.NotADirectory?)
    ensures e.NotADirectory? ==> !IsDirectory(t, Parent(s))
  {
    if IsDirectory(t, Parent(s)) then NoEntry(s) else ParentError(t, s)
  }

  /** Opening `p` for writing: a new or truncated file holding `text`. */
  function Write(t: Tree, p: Path, text: string): (r: Result<Tree, FsError>)
    ensures r.Ok? <==> !IsDirectory(t, p) && IsDirectory(t, Parent(p))
    ensures r.Err? && IsDirectory(t, p) ==> r.error == IsADirectory(p)
  {
    if IsDirectory(t, p) then Err(IsADirectory(p))
    else if !IsDirectory(t, Parent(p)) then Err(ParentError(t, p))
    else Ok(t[p := File(text)])
  }

  /** Where `File.copy` writes: into a directory under the source's own name. */
  function CopyTarget(t: Tree, source: Path, dest: Path): (r: Path)
  {
    if source != [] && IsDirectory(t, dest) then dest + [source[|source| - 1]] else dest
  }

  /**
    What `File.copy` writes: the text of a file; a directory opens but fails
    at its first read, which the copy rescues, so the destination, already
    opened, is left empty.
   */
  function Readable(t: Tree, source: Path): (text: string)
  {
    if source in t && t[source].File? then t[source].content else ""
  }

  /** One operation: it succeeds only on a target that is not a directory,
      and then the target exists. */
  function Step(t: Tree, a: Action): (r: Result<Tree, FsError>)
    ensures r.Ok? ==> Target(t, a) in r.value && !IsDirectory(t, Target(t, a))
  {
    match a
    case MakeDir(p) =>
      if IsDirectory(t, p) || p in t then Err(AlreadyExists(p))
      else if !IsDirectory(t, Parent(p)) then Err(ParentError(t, p))
      else Ok(t[p := Directory])
    case WriteFile(p, text) =>
      Write(t, p, text)
    case CopyFile(source, dest) =>
      if source != [] && source !in t then Err(SourceError(t, source))
      else Write(t, CopyTarget(t, source, dest), Readable(t, source))
  }

  /** The one path an operation creates or overwrites. */
  function Target(t: Tree, a: Action): (r: Path)
  {
    match a
    case MakeDir(p) => p
    case WriteFile(p, _) => p
    case CopyFile(source, dest) => CopyTarget(t, source, dest)
  }

  /**
    A successful operation keeps the tree well formed, creates or replaces
    only its target, leaves every other path as it was, and never removes
    a path or turns a directory into a file.
   */
  lemma StepFrame(t: Tree, a: Action)
    requires Wellformed(t) && Step(t, a).Ok?
    ensures Wellformed(Step(t, a).value)
    ensures Step(t, a).value.Keys == t.Keys + {Target(t, a)}
    ensures forall q :: q in t && q != Target(t, a) ==> Step(t, a).value[q] == t[q]
    ensures forall q :: IsDirectory(t, q) ==> IsDirectory(Step(t, a).value, q)
  {
    var t' := Step(t, a).value;
    var p := Target(t, a);
    assert p != [] && IsDirectory(t, Parent(p));
    assert !IsDirectory(t, p);
    forall q | q in t' ensures q != [] && IsDirectory(t', Parent(q)) {
      if q != p {
        assert IsDirectory(t, Parent(q));
      }
    }
  }

  /** How a run of operations ends: all of them done, or stopped at the
      first that raised, with the tree as the earlier ones left it. */
  datatype Outcome =
    | Completed(tree: Tree)
    | Aborted(step: nat, error: FsError, tree: Tree)

  /** The operations from index `i` on, applied to `t`. */
  function RunFrom(t: Tree, plan: seq<Action>, i: nat): (o: Outcome)
    requires i <= |plan|
    decreases |plan| - i
    ensures o.Aborted? ==> i <= o.step < |plan|
  {
    if i == |plan| then Completed(t)
    else match Step(t, plan[i])
      case Err(e) => Aborted(i, e, t)
      case Ok(t') => RunFrom(t', plan, i + 1)
  }

  /** The whole plan: nothing is ever removed, whether it completes or stops. */
  function RunPlan(t: Tree, plan: seq<Action>): (o: Outcome)
    ensures o.Aborted? ==> o.step < |plan|
    ensures t.Keys <= o.tree.Keys
  {
    RunFromKeeps(t, plan, 0);
    RunFrom(t, plan, 0)
  }

  /** No operation removes a path, so neither does a run, complete or stopped. */
  lemma {:induction false} RunFromKeeps(t: Tree, plan: seq<Action>, i: nat)
    requires i <= |plan|
    decreases |plan| - i
    ensures t.Keys <= RunFrom(t, plan, i).tree.Keys
  {
    if i < |plan| {
      match Step(t, plan[i])
      case Err(_) =>
      case Ok(t') => RunFromKeeps(t', plan, i + 1);
    }
  }

  /** A copy whose source is missing stops the run where it stands. */
  lemma MissingSourceAborts(t: Tree, plan: seq<Action>, i: nat)
    requires i < |plan| && plan[i].CopyFile?
    requires plan[i].source != [] && plan[i].source !in t
    ensures RunFrom(t, plan, i) == Aborted(i, SourceError(t, plan[i].source), t)
  {
  }

  /** Running from index `i` gives the same result on the whole plan as on
      any longer prefix of it, as long as the run stops inside that prefix. */
  lemma {:induction false} RunFromPrefix(t: Tree, plan: seq<Action>, i: nat, n: nat)
    requires i <= n <= |plan|
    decreases n - i
    ensures RunFrom(t, plan[..n], i).Completed? ==>
      RunFrom(t, plan, i) == RunFrom(RunFrom(t, plan[..n], i).tree, plan, n)
    ensures RunFrom(t, plan[..n], i).Aborted? ==> RunFrom(t, plan, i) == RunFrom(t, plan[..n], i)
  {
    if i < n {
      assert plan[..n][i] == plan[i];
      match Step(t, plan[i])
      case Err(e) =>
      case Ok(t') => RunFromPrefix(t', plan, i + 1, n);
    }
  }

  /**
    Fail fast, no rollback: when a run stops at step `k`, the steps before
    `k` all succeeded and produced exactly the tree left behind, step `k`
    raised the error reported, and no later step ran.
   */
  lemma FailFast(t: Tree, plan: seq<Action>)
    requires RunPlan(t, plan).Aborted?
    ensures RunPlan(t, plan).step < |plan|
    ensures RunPlan(t, plan[..RunPlan(t, plan).step]) == Completed(RunPlan(t, plan).tree)
    ensures Step(RunPlan(t, plan).tree, plan[RunPlan(t, plan).step]) == Err(RunPlan(t, plan).error)
  {
    var k := RunPlan(t, plan).step;
    AbortedAt(t, plan, 0);
    RunFromPrefix(t, plan, 0, k);
  }

  /** The stop at step `k` from index `i`: the prefix up to `k` completes
      and step `k` raises from where it left the tree. */
  lemma {:induction false} AbortedAt(t: Tree, plan: seq<Action>, i: nat)
    requires i <= |plan| && RunFrom(t, plan, i).Aborted?
    decreases |plan| - i
    ensures Step(RunFrom(t, plan, i).tree, plan[RunFrom(t, plan, i).step]) == Err(RunFrom(t, plan, i).error)
  {
    match Step(t, plan[i])
    case Err(e) =>
    case Ok(t') => AbortedAt(t', plan, i + 1);
  }

  /** A run that completes did every step, in order. */
  lemma {:induction false} CompletedPrefixes(t: Tree, plan: seq<Action>, n: nat)
    requires n <= |plan| && RunPlan(t, plan).Completed?
    ensures RunPlan(t, plan[..n]).Completed?
    ensures RunFrom(RunPlan(t, plan[..n]).tree, plan, n) == RunPlan(t, plan)
  {
    RunFromPrefix(t, plan, 0, n);
  }

  /** Every run keeps the tree well formed. */
  lemma {:induction false} RunFromWellformed(t: Tree, plan: seq<Action>, i: nat)
    requires i <= |plan| && Wellformed(t)
    decreases |plan| - i
    ensures Wellformed(RunFrom(t, plan, i).tree)
  {
    if i < |plan| {
      match Step(t, plan[i])
      case Err(e) =>
      case Ok(t') =>
        StepFrame(t, plan[i]);
        RunFromWellformed(t', plan, i + 1);
    }
  }

  /** Operation `a`, run against the original tree `t`, would create `p` holding `node`. */
  predicate CreatesAt(t: Tree, a: Action, p: Path, node: Node)
  {
    match a
    case MakeDir(q) => q == p && node == Directory
    case WriteFile(q, text) => q == p && node == File(text)
    case CopyFile(source, dest) =>
      dest == p && source != [] && source in t && t[source].File? && node == t[source]
  }

  /** What the plan's operations create, in order: path `ps[i]` holding `nodes[i]`. */
  predicate Creates(t: Tree, plan: seq<Action>, ps: seq<Path>, nodes: seq<Node>)
  {
    && |plan| == |ps| == |nodes|
    && (forall i :: 0 <= i < |plan| ==> CreatesAt(t, plan[i], ps[i], nodes[i]))
  }

  /** One creating operation, on a tree `u` that still holds `t`'s files. */
  lemma StepCreates(t: Tree, u: Tree, a: Action, p: Path, node: Node)
    requires CreatesAt(t, a, p, node)
    requires p != [] && p !in u && IsDirectory(u, Parent(p))
    requires a.CopyFile? ==> a.source in u && u[a.source] == t[a.source]
    ensures Step(u, a) == Ok(u[p := node])
  {
  }

  /** No two creations are of the same path. */
  predicate Distinct(ps: seq<Path>)
  {
    forall i, j :: 0 <= i < j < |ps| ==> ps[i] != ps[j]
  }

  /** Every path created is new. */
  predicate Absent(t: Tree, ps: seq<Path>)
  {
    forall i :: 0 <= i < |ps| ==> ps[i] != [] && ps[i] !in t
  }

  /** Whether the parent of the `i`-th creation is a directory by then. */
  predicate ParentReady(t: Tree, ps: seq<Path>, nodes: seq<Node>, i: nat)
    requires i < |ps| == |nodes| && ps[i] != []
  {
    IsDirectory(t, Parent(ps[i])) ||
    exists j :: 0 <= j < i && ps[j] == Parent(ps[i]) && nodes[j] == Directory
  }

  /**
    The plan only adds: every path it creates is new and created once, and
    sits in a directory that exists already or that an earlier operation
    makes.
   */
  predicate Fresh(t: Tree, ps: seq<Path>, nodes: seq<Node>)
  {
    && |ps| == |nodes|
    && Absent(t, ps)
    && Distinct(ps)
    && (forall i :: 0 <= i < |ps| ==> ParentReady(t, ps, nodes, i))
  }

  /** `t` with the first `n` creations added. */
  function Added(t: Tree, ps: seq<Path>, nodes: seq<Node>, n: nat): (r: Tree)
    requires n <= |ps| == |nodes|
  {
    if n == 0 then t else Added(t, ps, nodes, n - 1)[ps[n - 1] := nodes[n - 1]]
  }

  /** `Added` holds the old paths and the first `n` created ones. */
  lemma {:induction false} AddedKeys(t: Tree, ps: seq<Path>, nodes: seq<Node>, n: nat)
    requires n <= |ps| == |nodes|
    ensures Added(t, ps, nodes, n).Keys == t.Keys + set j | 0 <= j < n :: ps[j]
  {
    if n > 0 {
      AddedKeys(t, ps, nodes, n - 1);
      assert (set j | 0 <= j < n :: ps[j]) == (set j | 0 <= j < n - 1 :: ps[j]) + {ps[n - 1]};
    }
  }

  /** The old paths keep what they held. */
  lemma {:induction false} AddedOld(t: Tree, ps: seq<Path>, nodes: seq<Node>, n: nat)
    requires n <= |ps| == |nodes| && Absent(t, ps)
    ensures forall q :: q in t ==> q in Added(t, ps, nodes, n) && Added(t, ps, nodes, n)[q] == t[q]
  {
    if n > 0 {
      AddedOld(t, ps, nodes, n - 1);
      assert ps[n - 1] !in t;
    }
  }

  /** Each of the first `n` created paths holds what was created there. */
  lemma {:induction false} AddedNew(t: Tree, ps: seq<Path>, nodes: seq<Node>, n: nat)
    requires n <= |ps| == |nodes| && Distinct(ps)
    ensures forall j :: 0 <= j < n ==> ps[j] in Added(t, ps, nodes, n) && Added(t, ps, nodes, n)[ps[j]] == nodes[j]
  {
    if n > 0 {
      AddedNew(t, ps, nodes, n - 1);
      assert forall j :: 0 <= j < n - 1 ==> ps[j] != ps[n - 1];
    }
  }

  /** The paths still to be created are not there yet. */
  lemma {:induction false} AddedFuture(t: Tree, ps: seq<Path>, nodes: seq<Node>, n: nat)
    requires n <= |ps| == |nodes| && Absent(t, ps) && Distinct(ps)
    ensures forall j :: n <= j < |ps| ==> ps[j] !in Added(t, ps, nodes, n)
  {
    if n > 0 {
      AddedFuture(t, ps, nodes, n - 1);
      assert forall j :: n <= j < |ps| ==> ps[j] != ps[n - 1];
    }
  }

  /** From step `i` on, each operation of a fresh plan succeeds. */
  lemma RunFresh(t: Tree, plan: seq<Action>, ps: seq<Path>, nodes: seq<Node>, i: nat)
    requires Creates(t, plan, ps, nodes) && Fresh(t, ps, nodes) && i <= |plan|
    ensures RunFrom(Added(t, ps, nodes, i), plan, i) == Completed(Added(t, ps, nodes, |plan|))
  {
    var trees := seq(|plan| + 1, k requires 0 <= k <= |plan| => Added(t, ps, nodes, k));
    forall k | i <= k < |plan| ensures Step(trees[k], plan[k]) == Ok(trees[k + 1]) {
      FreshStep(t, plan, ps, nodes, k);
    }
    RunChain(plan, trees, i);
  }

  /** A run through operations that each succeed, from one tree of the
      chain to the next, completes with the last tree. */
  lemma {:induction false} RunChain(plan: seq<Action>, trees: seq<Tree>, i: nat)
    requires i <= |plan| && |trees| == |plan| + 1
    requires forall k :: i <= k < |plan| ==> Step(trees[k], plan[k]) == Ok(trees[k + 1])
    decreases |plan| - i
    ensures RunFrom(trees[i], plan, i) == Completed(trees[|plan|])
  {
    if i < |plan| {
      RunFromOk(trees[i], plan, i, trees[i + 1]);
      RunChain(plan, trees, i + 1);
    }
  }

  /** An operation that succeeds hands its tree on to the rest of the run. */
  lemma RunFromOk(t: Tree, plan: seq<Action>, i: nat, t': Tree)
    requires i < |plan| && Step(t, plan[i]) == Ok(t')
    ensures RunFrom(t, plan, i) == RunFrom(t', plan, i + 1)
  {
  }

  /** Operation `i` of a fresh plan, on the tree the earlier ones made, adds its path. */
  lemma FreshStep(t: Tree, plan: seq<Action>, ps: seq<Path>, nodes: seq<Node>, i: nat)
    requires Creates(t, plan, ps, nodes) && Fresh(t, ps, nodes) && i < |plan|
    ensures Step(Added(t, ps, nodes, i), plan[i]) == Ok(Added(t, ps, nodes, i + 1))
  {
    var u := Added(t, ps, nodes, i);
    AddedOld(t, ps, nodes, i);
    AddedNew(t, ps, nodes, i);
    AddedFuture(t, ps, nodes, i);
    var p := ps[i];
    assert IsDirectory(u, Parent(p)) by {
      assert ParentReady(t, ps, nodes, i);
      if !IsDirectory(t, Parent(p)) {
        var j :| 0 <= j < i && ps[j] == Parent(p) && nodes[j] == Directory;
      }
    }
    assert CreatesAt(t, plan[i], p, nodes[i]);
    StepCreates(t, u, plan[i], p, nodes[i]);
  }

  /**
    A plan that only adds completes, and leaves the old tree with exactly
    the new paths added.
   */
  lemma FreshPlanCompletes(t: Tree, plan: seq<Action>, ps: seq<Path>, nodes: seq<Node>)
    requires Creates(t, plan, ps, nodes) && Fresh(t, ps, nodes)
    ensures RunPlan(t, plan).Completed?
    ensures RunPlan(t, plan).tree.Keys == t.Keys + PathSet(ps)
    ensures forall q :: q in t ==> RunPlan(t, plan).tree[q] == t[q]
    ensures forall j :: 0 <= j < |ps| ==> RunPlan(t, plan).tree[ps[j]] == nodes[j]
  {
    RunFresh(t, plan, ps, nodes, 0);
    AddedKeys(t, ps, nodes, |ps|);
    AddedOld(t, ps, nodes, |ps|);
    AddedNew(t, ps, nodes, |ps|);
    assert (set j | 0 <= j < |ps| :: ps[j]) == PathSet(ps) by {
      forall p | p in ps ensures p in set j | 0 <= j < |ps| :: ps[j] {
        var j :| 0 <= j < |ps| && ps[j] == p;
      }
    }
  }

  /** The disk the command works on. */
  class Disk {
    var entries: Tree

    constructor(t: Tree)
      ensures entries == t
    {
      entries := t;
    }

    /** Performs one operation; on an error the disk is left as it was. */
    method Apply(a: Action) returns (error: Option<FsError>)
      modifies this
      ensures Step(old(entries), a).Ok? ==> error == None && entries == Step(old(entries), a).value
      ensures Step(old(entries), a).Err? ==> error == Some(Step(old(entries), a).error) && entries == old(entries)
    {
      match Step(entries, a)
      case Err(e) =>
        error := Some(e);
      case Ok(t) =>
        entries := t;
        error := None;
    }

    /** Performs the operations in order and stops at the first that raises. */
    method Run(plan: seq<Action>) returns (o: Outcome)
      modifies this
      ensures o == RunPlan(old(entries), plan)
      ensures entries == o.tree
    {
      var i := 0;
      while i < |plan|
        invariant 0 <= i <= |plan|
        invariant RunFrom(entries, plan, i) == RunPlan(old(entries), plan)
      {
        var error := Apply(plan[i]);
        if error.Some? {
          return Aborted(i, error.value, entries);
        }
        i := i + 1;
      }
      o := Completed(entries);
    }
  }
}
