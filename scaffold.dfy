/**
  `create_robot` itself (lib/commands/create.rb, lines 8-64): read the
  robot name and the options, then lay out the project directory one
  operation at a time, stopping at the first operation that raises.
 */
module Scaffold {
  import opened Wrappers
  import opened FileSystem
  import Naming
  import Options
  import Templates

  /** The jars copied into `lib`, in the order they are copied. */
  const Jars: seq<string> := ["appengine-api-1.0-sdk-1.2.1.jar", "jruby-core.jar", "ruby-stdlib.jar"]

  /** `File.join(".", robot_name)` seen from the working directory `cwd`:
      an empty robot name names the working directory itself. */
  function RobotDir(cwd: Path, robotName: string): (r: Path)
    ensures robotName != [] ==> r == cwd + [robotName] && Parent(r) == cwd
    ensures robotName == [] ==> r == cwd
  {
    if robotName == [] then cwd else cwd + [robotName]
  }

  /** The text of the four files, as `puts` writes them. */
  datatype Texts = Texts(robot: string, config: string, appengine: string, warble: string)

  function FileTexts(robotName: string, moduleName: string, options: Options.Hash): (r: Texts)
  {
    Texts(
      Templates.Puts(Templates.RobotFile(robotName, moduleName)),
      Templates.Puts(Templates.ConfigFile(Naming.RobotClassName(moduleName), Options.OptionsString(options))),
      Templates.Puts(Templates.AppengineWeb(robotName)),
      Templates.Puts(Templates.WarbleConfig()))
  }

  /**
    The operations of lines 26-63, in the order the command performs them:
    the project directory, robot.rb, config.ru, appengine-web.xml, the
    public folder, the lib folder, the three jars, the config folder and
    config/warble.rb.
   */
  function Steps(dir: Path, texts: Texts, jarDir: Path): (plan: seq<Action>)
    ensures |plan| == 11
  {
    [ MakeDir(dir),
      WriteFile(dir + ["robot.rb"], texts.robot),
      WriteFile(dir + ["config.ru"], texts.config),
      WriteFile(dir + ["appengine-web.xml"], texts.appengine),
      MakeDir(dir + ["public"]),
      MakeDir(dir + ["lib"]),
      CopyFile(jarDir + [Jars[0]], dir + ["lib", Jars[0]]),
      CopyFile(jarDir + [Jars[1]], dir + ["lib", Jars[1]]),
      CopyFile(jarDir + [Jars[2]], dir + ["lib", Jars[2]]),
      MakeDir(dir + ["config"]),
      WriteFile(dir + ["config", "warble.rb"], texts.warble)
    ]
  }

  function Plan(dir: Path, robotName: string, moduleName: string, options: Options.Hash, jarDir: Path): (plan: seq<Action>)
  {
    Steps(dir, FileTexts(robotName, moduleName, options), jarDir)
  }

  /** The path an operation of the plan is meant to create. */
  function Destination(a: Action): (r: Path)
  {
    match a
    case MakeDir(p) => p
    case WriteFile(p, _) => p
    case CopyFile(_, d) => d
  }

  /**
    The plan creates the project directory first, and every later
    operation creates something inside a directory an earlier operation
    created: the jars go into `lib` only after `lib` is made, and
    warble.rb into `config` only after `config` is made.
   */
  lemma PlanOrder(dir: Path, texts: Texts, jarDir: Path, i: nat)
    requires 0 < i < 11
    ensures Steps(dir, texts, jarDir)[0] == MakeDir(dir)
    ensures var plan := Steps(dir, texts, jarDir);
      exists j :: 0 <= j < i && plan[j] == MakeDir(Parent(Destination(plan[i])))
  {
    var plan := Steps(dir, texts, jarDir);
    var j := if 6 <= i <= 8 then 5 else if i == 10 then 9 else 0;
    assert plan[j] == MakeDir(Parent(Destination(plan[i])));
  }

  /** Why `create_robot` stops. */
  datatype CreateError =
    | NoRobotName                                // `nil.split`: NoMethodError
    | BadRobotName                               // an empty word: TypeError
    | BadOption(argError: Options.ArgError)      // `to_sym` on nil, "" or a NUL
    | StepFailed(step: nat, fsError: FsError)    // an Errno from the disk

  /** The command's result and the tree it leaves. */
  datatype Report =
    | Created(tree: Tree)
    | Failed(error: CreateError, tree: Tree)

  /** What `create_robot(args)` does to the tree `t`, run in `cwd`, with the
      jars in `jarDir`. Nothing that was there is ever removed, and a
      failing operation is one of the eleven of the plan. */
  function CreateRobotSpec(t: Tree, cwd: Path, args: seq<string>, jarDir: Path): (r: Report)
    ensures t.Keys <= r.tree.Keys
    ensures r.Failed? && r.error.StepFailed? ==> r.error.step < 11
  {
    if args == [] then Failed(NoRobotName, t)
    else
      var robotName := args[0];
      match Naming.ModuleName(robotName)
      case None => Failed(BadRobotName, t)
      case Some(moduleName) =>
        match Options.OptionsOf(robotName, args[1..])
        case Err(e) => Failed(BadOption(e), t)
        case Ok(options) =>
          match RunPlan(t, Plan(RobotDir(cwd, robotName), robotName, moduleName, options, jarDir))
          case Completed(t') => Created(t')
          case Aborted(k, e, t') => Failed(StepFailed(k, e), t')
  }

  /** `create_robot(args)` on the disk. */
  method CreateRobot(disk: Disk, cwd: Path, args: seq<string>, jarDir: Path) returns (error: Option<CreateError>)
    modifies disk
    ensures CreateRobotSpec(old(disk.entries), cwd, args, jarDir)
      == if error.None? then Created(disk.entries) else Failed(error.value, disk.entries)
  {
    if args == [] {
      return Some(NoRobotName);
    }
    var robotName := args[0];
    var moduleName := Naming.ModuleName(robotName);
    if moduleName.None? {
      return Some(BadRobotName);
    }
    var options := Options.ParseOptions(robotName, args[1..]);
    if options.Err? {
      return Some(BadOption(options.error));
    }
    var dir := RobotDir(cwd, robotName);
    var outcome := disk.Run(Plan(dir, robotName, moduleName.value, options.value, jarDir));
    match outcome
    case Completed(_) =>
      error := None;
    case Aborted(k, e, _) =>
      error := Some(StepFailed(k, e));
  }

  /** A bad robot name or a bad option is found before the disk is touched. */
  lemma RejectedBeforeDisk(t: Tree, cwd: Path, args: seq<string>, jarDir: Path)
    ensures (CreateRobotSpec(t, cwd, args, jarDir).Failed? &&
               !CreateRobotSpec(t, cwd, args, jarDir).error.StepFailed?) ==>
      CreateRobotSpec(t, cwd, args, jarDir).tree == t
    ensures args != [] && Naming.ModuleName(args[0]).Some? && Options.OptionsOf(args[0], args[1..]).Err? ==>
      CreateRobotSpec(t, cwd, args, jarDir) == Failed(BadOption(Options.OptionsOf(args[0], args[1..]).error), t)
  {
  }

  /** Running the command for a project that already exists stops at the
      first step, `Dir.mkdir`, with EEXIST and leaves everything as it was. */
  lemma CreateTwice(t: Tree, cwd: Path, args: seq<string>, jarDir: Path)
    requires args != [] && Naming.ModuleName(args[0]).Some? && Options.OptionsOf(args[0], args[1..]).Ok?
    requires RobotDir(cwd, args[0]) in t || RobotDir(cwd, args[0]) == []
    ensures CreateRobotSpec(t, cwd, args, jarDir) == Failed(StepFailed(0, AlreadyExists(RobotDir(cwd, args[0]))), t)
  {
  }

  /** The paths the plan creates under the project directory `dir`, in order. */
  function Layout(dir: Path): (ps: seq<Path>)
    ensures |ps| == 11
  {
    [ dir, dir + ["robot.rb"], dir + ["config.ru"], dir + ["appengine-web.xml"], dir + ["public"],
      dir + ["lib"], dir + ["lib", Jars[0]], dir + ["lib", Jars[1]], dir + ["lib", Jars[2]],
      dir + ["config"], dir + ["config", "warble.rb"] ]
  }

  /** What each path of the layout holds once it is created. */
  function Contents(t: Tree, texts: Texts, jarDir: Path): (nodes: seq<Node>)
    requires forall k :: 0 <= k < |Jars| ==> jarDir + [Jars[k]] in t
    ensures |nodes| == 11
  {
    [ Directory, File(texts.robot), File(texts.config), File(texts.appengine), Directory,
      Directory, t[jarDir + [Jars[0]]], t[jarDir + [Jars[1]]], t[jarDir + [Jars[2]]],
      Directory, File(texts.warble) ]
  }

  /** What a fresh run may rely on: a well-formed tree in which the working
      directory exists, the project directory does not, and the three jars
      are files. */
  predicate FreshStart(t: Tree, cwd: Path, robotName: string, jarDir: Path)
  {
    && Wellformed(t)
    && IsDirectory(t, cwd)
    && robotName != []
    && cwd + [robotName] !in t
    && (forall k :: 0 <= k < |Jars| ==> jarDir + [Jars[k]] in t && t[jarDir + [Jars[k]]].File?)
  }

  /**
    `t'` is `t` with the project laid out under `dir`: the four directories,
    the three files holding `texts`, the three jars copied from `jarDir`
    into lib, and config/warble.rb; nothing else is added and nothing that
    existed is changed.
   */
  predicate Project(t: Tree, t': Tree, dir: Path, texts: Texts, jarDir: Path)
  {
    && t'.Keys == t.Keys + PathSet(Layout(dir))
    && (forall q :: q in t ==> q in t' && t'[q] == t[q])
    && dir in t' && t'[dir] == Directory
    && dir + ["robot.rb"] in t' && t'[dir + ["robot.rb"]] == File(texts.robot)
    && dir + ["config.ru"] in t' && t'[dir + ["config.ru"]] == File(texts.config)
    && dir + ["appengine-web.xml"] in t' && t'[dir + ["appengine-web.xml"]] == File(texts.appengine)
    && dir + ["public"] in t' && t'[dir + ["public"]] == Directory
    && dir + ["lib"] in t' && t'[dir + ["lib"]] == Directory
    && (forall k :: 0 <= k < |Jars| ==>
          && dir + ["lib", Jars[k]] in t' && jarDir + [Jars[k]] in t
          && t'[dir + ["lib", Jars[k]]] == t[jarDir + [Jars[k]]])
    && dir + ["config"] in t' && t'[dir + ["config"]] == Directory
    && dir + ["config", "warble.rb"] in t' && t'[dir + ["config", "warble.rb"]] == File(texts.warble)
  }

  /**
    When the project directory is new, its parent exists and the jars are
    files, the eleven operations all succeed and lay out the project.
   */
  lemma StepsRun(t: Tree, dir: Path, texts: Texts, jarDir: Path)
    requires Wellformed(t) && dir != [] && dir !in t && IsDirectory(t, Parent(dir))
    requires forall k :: 0 <= k < |Jars| ==> jarDir + [Jars[k]] in t && t[jarDir + [Jars[k]]].File?
    ensures RunPlan(t, Steps(dir, texts, jarDir)).Completed?
    ensures Project(t, RunPlan(t, Steps(dir, texts, jarDir)).tree, dir, texts, jarDir)
  {
    var plan, ps, nodes := Steps(dir, texts, jarDir), Layout(dir), Contents(t, texts, jarDir);
    LayoutFresh(t, dir, texts, jarDir);
    FreshPlanCompletes(t, plan, ps, nodes);
    var t' := RunPlan(t, plan).tree;
    forall j | 0 <= j < 11 ensures ps[j] in t' && t'[ps[j]] == nodes[j] {
      assert ps[j] in ps;
    }
    ProjectOfLayout(t, t', dir, texts, jarDir);
  }

  /** The layout with its contents, path by path, is the project. */
  lemma ProjectOfLayout(t: Tree, t': Tree, dir: Path, texts: Texts, jarDir: Path)
    requires forall k :: 0 <= k < |Jars| ==> jarDir + [Jars[k]] in t
    requires t'.Keys == t.Keys + PathSet(Layout(dir))
    requires forall q :: q in t ==> q in t' && t'[q] == t[q]
    requires forall j :: 0 <= j < 11 ==> Layout(dir)[j] in t' && t'[Layout(dir)[j]] == Contents(t, texts, jarDir)[j]
    ensures Project(t, t', dir, texts, jarDir)
  {
    var ps, nodes := Layout(dir), Contents(t, texts, jarDir);
    assert t'[ps[0]] == nodes[0] && t'[ps[1]] == nodes[1] && t'[ps[2]] == nodes[2];
    assert t'[ps[3]] == nodes[3] && t'[ps[4]] == nodes[4] && t'[ps[5]] == nodes[5];
    assert t'[ps[9]] == nodes[9] && t'[ps[10]] == nodes[10];
    forall k | 0 <= k < |Jars|
      ensures dir + ["lib", Jars[k]] in t' && t'[dir + ["lib", Jars[k]]] == t[jarDir + [Jars[k]]]
    {
      assert ps[6 + k] == dir + ["lib", Jars[k]];
      assert t'[ps[6 + k]] == nodes[6 + k];
    }
  }

  /** The plan only adds, and adds the layout with its contents. */
  lemma LayoutFresh(t: Tree, dir: Path, texts: Texts, jarDir: Path)
    requires Wellformed(t) && dir != [] && dir !in t && IsDirectory(t, Parent(dir))
    requires forall k :: 0 <= k < |Jars| ==> jarDir + [Jars[k]] in t && t[jarDir + [Jars[k]]].File?
    ensures Creates(t, Steps(dir, texts, jarDir), Layout(dir), Contents(t, texts, jarDir))
    ensures Fresh(t, Layout(dir), Contents(t, texts, jarDir))
  {
    var plan, ps, nodes := Steps(dir, texts, jarDir), Layout(dir), Contents(t, texts, jarDir);
    forall i | 0 <= i < 11 ensures CreatesAt(t, plan[i], ps[i], nodes[i]) {
      assert ps[6] == dir + ["lib"] + [Jars[0]];
    }
    NewPaths(t, dir);
    LayoutDistinct(dir);
    forall i | 0 <= i < 11 ensures ParentReady(t, ps, nodes, i) {
      LayoutParents(dir, i);
      var j := if 6 <= i <= 8 then 5 else if i == 10 then 9 else 0;
      if i > 0 {
        assert ps[j] == Parent(ps[i]) && nodes[j] == Directory;
      }
    }
  }

  /** The four templates, filled in. */
  function TemplateTexts(robotName: string, moduleName: string, options: Options.Hash): (r: Texts)
  {
    Texts(
      Templates.RobotFile(robotName, moduleName),
      Templates.ConfigFile(Naming.RobotClassName(moduleName), Options.OptionsString(options)),
      Templates.AppengineWeb(robotName),
      Templates.WarbleConfig())
  }

  /** `puts` adds nothing to the templates: each already ends in a newline. */
  lemma FileTextsAreTemplates(robotName: string, moduleName: string, options: Options.Hash)
    ensures FileTexts(robotName, moduleName, options) == TemplateTexts(robotName, moduleName, options)
  {
    Templates.PutsUnlines(Templates.RobotLines(robotName, moduleName));
    Templates.PutsUnlines(Templates.ConfigLines(Naming.RobotClassName(moduleName), Options.OptionsString(options)));
    Templates.PutsUnlines(Templates.AppengineLines(robotName));
    Templates.PutsUnlines(Templates.WarbleLines);
  }

  /**
    `create_robot` on a fresh start with a good name and good options
    creates the project: every path of the layout, robot.rb, config.ru,
    appengine-web.xml and config/warble.rb holding their templates, the
    three jars copied into lib, and nothing that existed changed.
   */
  lemma FreshCreate(t: Tree, cwd: Path, args: seq<string>, jarDir: Path)
    requires args != [] && FreshStart(t, cwd, args[0], jarDir)
    requires Naming.ModuleName(args[0]).Some? && Options.OptionsOf(args[0], args[1..]).Ok?
    ensures CreateRobotSpec(t, cwd, args, jarDir).Created?
    ensures Project(t, CreateRobotSpec(t, cwd, args, jarDir).tree, cwd + [args[0]],
      TemplateTexts(args[0], Naming.ModuleName(args[0]).value, Options.OptionsOf(args[0], args[1..]).value), jarDir)
  {
    var robotName, moduleName := args[0], Naming.ModuleName(args[0]).value;
    var options := Options.OptionsOf(robotName, args[1..]).value;
    var dir := RobotDir(cwd, robotName);
    var texts := FileTexts(robotName, moduleName, options);
    FileTextsAreTemplates(robotName, moduleName, options);
    StepsRun(t, dir, texts, jarDir);
  }

  /**
    No rollback: when the first jar is missing, the run stops at the first
    copy (step 6), and the project directory, the three files, public and
    lib it already made stay behind. The copy's `stat` raises ENOENT when
    the jar directory is there and ENOTDIR when it is a file.
   */
  lemma FirstJarMissing(t: Tree, dir: Path, texts: Texts, jarDir: Path)
    requires Wellformed(t) && dir != [] && dir !in t && IsDirectory(t, Parent(dir))
    requires jarDir + [Jars[0]] !in t && jarDir + [Jars[0]] != dir
    ensures RunPlan(t, Steps(dir, texts, jarDir)).Aborted?
    ensures var o := RunPlan(t, Steps(dir, texts, jarDir));
      && o.step == 6 && jarDir + [Jars[0]] !in o.tree
      && o.error == SourceError(o.tree, jarDir + [Jars[0]])
      && TopLaidOut(t, o.tree, dir, texts)
    ensures var o := RunPlan(t, Steps(dir, texts, jarDir));
      && (IsDirectory(t, jarDir) ==> o.error == NoEntry(jarDir + [Jars[0]]))
      && (jarDir in t && t[jarDir].File? ==> o.error == NotADirectory(jarDir + [Jars[0]]))
  {
    var plan, j0 := Steps(dir, texts, jarDir), jarDir + [Jars[0]];
    TopRun(t, dir, texts, jarDir);
    var u := RunPlan(t, plan[..6]).tree;
    RunFromPrefix(t, plan, 0, 6);
    JarNotLaidOut(t, u, dir, texts, jarDir);
    assert plan[6] == CopyFile(j0, dir + ["lib", Jars[0]]);
    MissingSourceAborts(u, plan, 6);
    assert Parent(j0) == jarDir;
    if jarDir in t && t[jarDir].File? {
      RunFromWellformed(t, plan[..6], 0);
      ParentIsFile(u, j0);
    }
  }

  /** The top of the project does not hold the first jar's source path. */
  lemma JarNotLaidOut(t: Tree, u: Tree, dir: Path, texts: Texts, jarDir: Path)
    requires TopLaidOut(t, u, dir, texts)
    requires jarDir + [Jars[0]] !in t && jarDir + [Jars[0]] != dir
    ensures jarDir + [Jars[0]] !in u
  {
    LastDiffers(dir, "robot.rb", jarDir, Jars[0]);
    LastDiffers(dir, "config.ru", jarDir, Jars[0]);
    LastDiffers(dir, "appengine-web.xml", jarDir, Jars[0]);
    LastDiffers(dir, "public", jarDir, Jars[0]);
    LastDiffers(dir, "lib", jarDir, Jars[0]);
  }

  /** Paths with different last components differ. */
  lemma LastDiffers(p: Path, x: string, q: Path, y: string)
    requires x != y
    ensures p + [x] != q + [y]
  {
    assert (p + [x])[|p + [x]| - 1] == x;
    assert (q + [y])[|q + [y]| - 1] == y;
  }

  /** The first six operations succeed on a fresh start and lay out the top
      of the project. */
  lemma TopRun(t: Tree, dir: Path, texts: Texts, jarDir: Path)
    requires Wellformed(t) && dir != [] && dir !in t && IsDirectory(t, Parent(dir))
    ensures RunPlan(t, Steps(dir, texts, jarDir)[..6]).Completed?
    ensures TopLaidOut(t, RunPlan(t, Steps(dir, texts, jarDir)[..6]).tree, dir, texts)
  {
    var plan, ps, nodes := Steps(dir, texts, jarDir)[..6], Layout(dir)[..6], TopNodes(texts);
    TopFresh(t, dir, texts, jarDir);
    FreshPlanCompletes(t, plan, ps, nodes);
    var u := RunPlan(t, plan).tree;
    forall j | 0 <= j < 6 ensures ps[j] in u && u[ps[j]] == nodes[j] {
      assert ps[j] in ps;
    }
    TopOfLayout(t, u, dir, texts);
  }

  /** `t'` is `t` with the project directory, its three files, public and
      lib added, and nothing else added or changed. */
  predicate TopLaidOut(t: Tree, t': Tree, dir: Path, texts: Texts)
  {
    && t'.Keys == t.Keys + {dir, dir + ["robot.rb"], dir + ["config.ru"], dir + ["appengine-web.xml"],
                            dir + ["public"], dir + ["lib"]}
    && (forall q :: q in t ==> q in t' && t'[q] == t[q])
    && dir in t' && t'[dir] == Directory
    && dir + ["robot.rb"] in t' && t'[dir + ["robot.rb"]] == File(texts.robot)
    && dir + ["config.ru"] in t' && t'[dir + ["config.ru"]] == File(texts.config)
    && dir + ["appengine-web.xml"] in t' && t'[dir + ["appengine-web.xml"]] == File(texts.appengine)
    && dir + ["public"] in t' && t'[dir + ["public"]] == Directory
    && dir + ["lib"] in t' && t'[dir + ["lib"]] == Directory
  }

  lemma TopOfLayout(t: Tree, t': Tree, dir: Path, texts: Texts)
    requires t'.Keys == t.Keys + PathSet(Layout(dir)[..6])
    requires forall q :: q in t ==> q in t' && t'[q] == t[q]
    requires forall j :: 0 <= j < 6 ==> Layout(dir)[..6][j] in t' && t'[Layout(dir)[..6][j]] == TopNodes(texts)[j]
    ensures TopLaidOut(t, t', dir, texts)
  {
    var ps := Layout(dir)[..6];
    assert ps == [dir, dir + ["robot.rb"], dir + ["config.ru"], dir + ["appengine-web.xml"],
                  dir + ["public"], dir + ["lib"]];
    assert PathSet(ps) == {dir, dir + ["robot.rb"], dir + ["config.ru"], dir + ["appengine-web.xml"],
                                 dir + ["public"], dir + ["lib"]};
    assert t'[ps[0]] == Directory && t'[ps[1]] == File(texts.robot) && t'[ps[2]] == File(texts.config);
    assert t'[ps[3]] == File(texts.appengine) && t'[ps[4]] == Directory && t'[ps[5]] == Directory;
  }

  /** What the first six operations create. */
  function TopNodes(texts: Texts): (nodes: seq<Node>)
    ensures |nodes| == 6
  {
    [Directory, File(texts.robot), File(texts.config), File(texts.appengine), Directory, Directory]
  }

  /** The first six operations only add. */
  lemma TopFresh(t: Tree, dir: Path, texts: Texts, jarDir: Path)
    requires Wellformed(t) && dir != [] && dir !in t && IsDirectory(t, Parent(dir))
    ensures Creates(t, Steps(dir, texts, jarDir)[..6], Layout(dir)[..6], TopNodes(texts))
    ensures Fresh(t, Layout(dir)[..6], TopNodes(texts))
  {
    var plan, ps, nodes := Steps(dir, texts, jarDir)[..6], Layout(dir)[..6], TopNodes(texts);
    NewPaths(t, dir);
    LayoutDistinct(dir);
    forall i | 0 <= i < 6 ensures ParentReady(t, ps, nodes, i) {
      LayoutParents(dir, i);
      if i > 0 {
        assert ps[0] == Parent(ps[i]) && nodes[0] == Directory;
      }
    }
  }

  /** The parent of each path of the layout: the working directory's child
      `dir` for the top-level entries, `lib` or `config` for the rest. */
  lemma LayoutParents(dir: Path, i: nat)
    requires dir != [] && i < 11
    ensures Layout(dir)[i] != []
    ensures i == 0 ==> Parent(Layout(dir)[i]) == Parent(dir)
    ensures 1 <= i <= 5 || i == 9 ==> Parent(Layout(dir)[i]) == dir
    ensures 6 <= i <= 8 ==> Parent(Layout(dir)[i]) == dir + ["lib"]
    ensures i == 10 ==> Parent(Layout(dir)[i]) == dir + ["config"]
  {
    var p := Layout(dir)[i];
    if 6 <= i <= 8 {
      assert p == (dir + ["lib"]) + [Jars[i - 6]];
    } else if i == 10 {
      assert p == (dir + ["config"]) + ["warble.rb"];
    }
  }

  /** The layout, relative to the project directory. */
  const Relative: seq<Path> := [[], ["robot.rb"], ["config.ru"], ["appengine-web.xml"], ["public"],
    ["lib"], ["lib", Jars[0]], ["lib", Jars[1]], ["lib", Jars[2]], ["config"], ["config", "warble.rb"]]

  /** The eleven paths are pairwise different. */
  lemma LayoutDistinct(dir: Path)
    ensures Distinct(Layout(dir))
  {
    var ps := Layout(dir);
    forall i | 0 <= i < 11 ensures ps[i] == dir + Relative[i] {
    }
    forall i, j | 0 <= i < j < 11 ensures ps[i] != ps[j] {
      RelativeDistinct(i, j);
      assert (dir + Relative[i])[|dir|..] == Relative[i];
      assert (dir + Relative[j])[|dir|..] == Relative[j];
    }
  }

  lemma RelativeDistinct(i: nat, j: nat)
    requires i < j < 11
    ensures Relative[i] != Relative[j]
  {
  }

  /** Nothing under a project directory that does not exist yet exists. */
  lemma ChildAbsent(t: Tree, dir: Path, x: Path)
    requires Wellformed(t) && dir != [] && dir !in t && 1 <= |x| <= 2
    decreases |x|
    ensures dir + x !in t
  {
    if |x| == 2 {
      ChildAbsent(t, dir, [x[0]]);
      assert Parent(dir + x) == dir + [x[0]];
    } else {
      assert Parent(dir + x) == dir;
    }
  }

  lemma NewPaths(t: Tree, dir: Path)
    requires Wellformed(t) && dir != [] && dir !in t
    ensures Absent(t, Layout(dir))
  {
    var ps := Layout(dir);
    forall i | 1 <= i < 11 ensures ps[i] !in t {
      assert ps[i] == dir + Relative[i];
      ChildAbsent(t, dir, Relative[i]);
    }
  }
}
