/**
  The four files `create_robot` writes from here-documents
  (lib/commands/create.rb, lines 66-151), each held as its list of lines.
  A here-document ends every line, the last one included, with a newline,
  so the `puts` that writes it adds nothing.
 */
module Templates {
  import opened Text

  const Newline: set<char> := {'\n'}

  /** Each line followed by a newline, as a here-document holds them. */
  function Unlines(lines: seq<string>): (r: string)
    ensures lines != [] ==> |r| > 0 && r[|r| - 1] == '\n'
  {
    if lines == [] then [] else lines[0] + "\n" + Unlines(lines[1..])
  }

  /** `IO#puts` of one string: the string, then a newline unless it already ends with one. */
  function Puts(s: string): (r: string)
    ensures s <= r && |r| <= |s| + 1
    ensures r != [] && r[|r| - 1] == '\n'
    ensures r == s <==> s != [] && s[|s| - 1] == '\n'
  {
    if s != [] && s[|s| - 1] == '\n' then s else s + "\n"
  }

  /** No line holds a newline of its own. */
  predicate SingleLines(lines: seq<string>)
  {
    forall i :: 0 <= i < |lines| ==> NoneIn(lines[i], Newline)
  }

  /** A line without a newline, then a newline: the line is the first field. */
  lemma FieldsOfLine(line: string, rest: string)
    requires NoneIn(line, Newline)
    ensures Fields(line + "\n" + rest, Newline) == [line] + Fields(rest, Newline)
  {
    var t := "\n" + rest;
    assert line + "\n" + rest == line + t;
    FieldsOfPrefix(line, t, Newline);
    assert t[0] in Newline && t[1..] == rest;
    assert Fields(t, Newline) == [[]] + Fields(rest, Newline);
    assert line + [] == line;
  }

  /** Splitting a here-document at its newlines gives back its lines, and
      one empty field after the final newline. */
  lemma {:induction false} UnlinesFields(lines: seq<string>)
    requires SingleLines(lines)
    ensures Fields(Unlines(lines), Newline) == lines + [[]]
  {
    if lines != [] {
      assert SingleLines(lines[1..]) by {
        forall i | 0 <= i < |lines[1..]| ensures NoneIn(lines[1..][i], Newline) {
          assert lines[1..][i] == lines[i + 1];
        }
      }
      UnlinesFields(lines[1..]);
      FieldsOfLine(lines[0], Unlines(lines[1..]));
      assert [lines[0]] + (lines[1..] + [[]]) == lines + [[]];
    }
  }

  /** Reading a here-document line by line, line `k` is the `k`-th line of
      the template as soon as no line up to it holds a newline. */
  lemma {:induction false} UnlinesLine(lines: seq<string>, k: nat)
    requires k < |lines| && SingleLines(lines[..k + 1])
    ensures k < |Fields(Unlines(lines), Newline)|
    ensures Fields(Unlines(lines), Newline)[k] == lines[k]
  {
    assert lines[..k + 1][0] == lines[0];
    FieldsOfLine(lines[0], Unlines(lines[1..]));
    if k > 0 {
      assert SingleLines(lines[1..][..k]) by {
        forall i | 0 <= i < k ensures NoneIn(lines[1..][..k][i], Newline) {
          assert lines[1..][..k][i] == lines[..k + 1][i + 1];
        }
      }
      UnlinesLine(lines[1..], k - 1);
    }
  }

  /** A line placed after `pre` is read back at index `|pre|`, whatever follows it. */
  lemma UnlinesSplice(pre: seq<string>, x: string, post: seq<string>)
    requires SingleLines(pre) && NoneIn(x, Newline)
    ensures |pre| < |Fields(Unlines(pre + [x] + post), Newline)|
    ensures Fields(Unlines(pre + [x] + post), Newline)[|pre|] == x
  {
    var lines, k := pre + [x] + post, |pre|;
    var head := lines[..k + 1];
    assert head == pre + [x];
    assert SingleLines(head) by {
      forall i | 0 <= i < k + 1 ensures NoneIn(head[i], Newline) {
        if i < k {
          assert head[i] == pre[i];
        }
      }
    }
    UnlinesLine(lines, k);
  }

  /** `puts` writes a here-document unchanged. */
  lemma PutsUnlines(lines: seq<string>)
    requires lines != []
    ensures Puts(Unlines(lines)) == Unlines(lines)
  {
  }

  // ---------------------------------------------------------------------
  // robot.rb (lines 66-108).

  const RobotPreamble: seq<string> := [
      "require 'rubygems'",
      "require 'rave'",
      ""
  ]

  const RobotClassOpen: seq<string> := [
      "  class Robot < Rave::Models::Robot",
      "    "
  ]

  const RobotBody: seq<string> := [
      "    ",
      "    #Define handlers here:",
      "    # e.g. if the robot should act on a DOCUMENT_CHANGED event:",
      "    # ",
      "    # def document_changed(event, context)",
      "    #   #Do some stuff",
      "    # end",
      "    # ",
      "    # Events are: ",
      "    # ",
      "    # WAVELET_BLIP_CREATED, WAVELET_BLIP_REMOVED, WAVELET_PARTICIPANTS_CHANGED,",
      "    # WAVELET_TIMESTAMP_CHANGED, WAVELET_TITLE_CHANGED, WAVELET_VERSION_CHANGED,",
      "    # BLIP_CONTRIBUTORS_CHANGED, BLIP_DELETED, BLIP_SUBMITTED, BLIP_TIMESTAMP_CHANGED,",
      "    # BLIP_VERSION_CHANGED, DOCUMENT_CHANGED, FORM_BUTTON_CLICKED",
      "    #",
      "    # If you want to name your event handler something other than the default name, ",
      "    # or you need to have more than one handler for an event, you can register handlers",
      "    # in the robot's constructor:",
      "    #",
      "    # def initialize(options={})",
      "    #   super",
      "    #   register_handler(Rave::Models::Event::DOCUMENT_CHANGED, :custom_doc_changed_handler)",
      "    # end",
      "    # ",
      "    # def custom_doc_changed_handler(event, context)",
      "    #   #Do some stuff",
      "    # end",
      "    # ",
      "    # Note: Don't forget to call super if you define #initialize",
      "    ",
      "  end",
      "end"
  ]

  /** The robot stub: the module named after the robot, its `Robot` class,
      and the `ME` constant holding the robot's appspot address. */
  function RobotLines(robotName: string, moduleName: string): (r: seq<string>)
  {
    RobotPreamble + ["module " + moduleName] + RobotClassOpen
      + ["    ME = \"" + robotName + "@appspot.com\""] + RobotBody
  }

  /** The file's text; it ends in a newline, so `puts` writes it unchanged. */
  function RobotFile(robotName: string, moduleName: string): (r: string)
    ensures Puts(r) == r
  {
    Unlines(RobotLines(robotName, moduleName))
  }

  /** robot.rb has 39 lines; read back line by line, its fourth line opens
      the module named after the robot and its seventh sets `ME` to the
      robot's appspot address. */
  lemma RobotFileLines(robotName: string, moduleName: string)
    requires NoneIn(robotName, Newline) && NoneIn(moduleName, Newline)
    ensures |RobotLines(robotName, moduleName)| == 39
    ensures 6 < |Fields(RobotFile(robotName, moduleName), Newline)|
    ensures Fields(RobotFile(robotName, moduleName), Newline)[3] == "module " + moduleName
    ensures Fields(RobotFile(robotName, moduleName), Newline)[6] == "    ME = \"" + robotName + "@appspot.com\""
  {
    var m := "module " + moduleName;
    var me := "    ME = \"" + robotName + "@appspot.com\"";
    NoneInAppend("module ", moduleName, Newline);
    NoneInAppend("    ME = \"", robotName, Newline);
    NoneInAppend("    ME = \"" + robotName, "@appspot.com\"", Newline);
    assert |RobotBody| == 32;
    RobotHeadLines(m);
    var lines := RobotLines(robotName, moduleName);
    assert lines == RobotPreamble + [m] + (RobotClassOpen + [me] + RobotBody);
    UnlinesSplice(RobotPreamble, m, RobotClassOpen + [me] + RobotBody);
    assert lines == (RobotPreamble + [m] + RobotClassOpen) + [me] + RobotBody;
    UnlinesSplice(RobotPreamble + [m] + RobotClassOpen, me, RobotBody);
  }

  /** The lines before the `ME` line hold no newline of their own. */
  lemma RobotHeadLines(m: string)
    requires NoneIn(m, Newline)
    ensures SingleLines(RobotPreamble) && SingleLines(RobotPreamble + [m] + RobotClassOpen)
  {
    var h := RobotPreamble + [m] + RobotClassOpen;
    assert h == [h[0], h[1], h[2], m, h[4], h[5]];
  }

  /** Only lines 4 and 7 of robot.rb depend on the robot. */
  lemma RobotLinesFixed(robotName: string, moduleName: string, otherName: string, otherModule: string, i: nat)
    requires i < 39 && i != 3 && i != 6
    ensures RobotLines(robotName, moduleName)[i] == RobotLines(otherName, otherModule)[i]
  {
    var a, b := RobotLines(robotName, moduleName), RobotLines(otherName, otherModule);
    if i < 3 {
      assert a[i] == RobotPreamble[i] == b[i];
    } else if i < 6 {
      assert a[i] == RobotClassOpen[i - 4] == b[i];
    } else {
      assert a[i] == RobotBody[i - 7] == b[i];
    }
  }

  // ---------------------------------------------------------------------
  // config.ru (lines 110-115).

  function ConfigLines(className: string, optionsText: string): (r: seq<string>)
  {
    ["require 'robot'", "run " + className + ".new( " + optionsText + " )"]
  }

  /** The file's text; it ends in a newline, so `puts` writes it unchanged. */
  function ConfigFile(className: string, optionsText: string): (r: string)
    ensures Puts(r) == r
  {
    Unlines(ConfigLines(className, optionsText))
  }

  /** config.ru is exactly two lines: it requires the robot file, then runs
      a new robot built with the options. */
  lemma ConfigFileLines(className: string, optionsText: string)
    requires NoneIn(className, Newline) && NoneIn(optionsText, Newline)
    ensures Fields(ConfigFile(className, optionsText), Newline)
      == ["require 'robot'", "run " + className + ".new( " + optionsText + " )", []]
  {
    NoneInAppend("run ", className, Newline);
    NoneInAppend("run " + className, ".new( ", Newline);
    NoneInAppend("run " + className + ".new( ", optionsText, Newline);
    NoneInAppend("run " + className + ".new( " + optionsText, " )", Newline);
    UnlinesFields(ConfigLines(className, optionsText));
  }

  // ---------------------------------------------------------------------
  // appengine-web.xml (lines 117-142).

  // The root element's opening tag, in two pieces.
  const AppXmlns := "<appengine-web-app xmlns="
  const AppNamespace := "\"http://appengine.google.com/ns/1.0\">"

  const AppenginePreamble: seq<string> := [
      "<?xml version=\"1.0\" encoding=\"utf-8\"?>",
      AppXmlns + AppNamespace
  ]

  const AppengineSettings: seq<string> := [
      "    <static-files />",
      "    <resource-files />",
      "    <sessions-enabled>false</sessions-enabled>",
      "    <system-properties>",
      "      <property name=\"jruby.management.enabled\" value=\"false\" />",
      "      <property name=\"os.arch\" value=\"\" />",
      "      <property name=\"jruby.compile.mode\" value=\"JIT\"/> <!-- JIT|FORCE|OFF -->",
      "      <property name=\"jruby.compile.fastest\" value=\"true\"/>",
      "      <property name=\"jruby.compile.frameless\" value=\"true\"/>",
      "      <property name=\"jruby.compile.positionless\" value=\"true\"/>",
      "      <property name=\"jruby.compile.threadless\" value=\"false\"/>",
      "      <property name=\"jruby.compile.fastops\" value=\"false\"/>",
      "      <property name=\"jruby.compile.fastcase\" value=\"false\"/>",
      "      <property name=\"jruby.compile.chainsize\" value=\"500\"/>",
      "      <property name=\"jruby.compile.lazyHandles\" value=\"false\"/>",
      "      <property name=\"jruby.compile.peephole\" value=\"true\"/>",
      "   </system-properties>",
      "</appengine-web-app>"
  ]

  /** The App Engine descriptor: the application is the robot name, the version is always 1. */
  function AppengineLines(robotName: string): (r: seq<string>)
  {
    AppenginePreamble + ["    <application>" + robotName + "</application>", "    <version>1</version>"]
      + AppengineSettings
  }

  /** The file's text; it ends in a newline, so `puts` writes it unchanged. */
  function AppengineWeb(robotName: string): (r: string)
    ensures Puts(r) == r
  {
    Unlines(AppengineLines(robotName))
  }

  /** The descriptor has 22 lines, and only its third depends on the robot. */
  lemma AppengineLinesFixed(robotName: string, otherName: string, i: nat)
    ensures |AppengineLines(robotName)| == 22
    ensures i < 22 && i != 2 ==> AppengineLines(robotName)[i] == AppengineLines(otherName)[i]
  {
  }

  lemma AppenginePreambleLines()
    ensures SingleLines(AppenginePreamble)
  {
    assert NoneIn(AppXmlns, Newline);
    assert NoneIn(AppNamespace, Newline);
    NoneInAppend(AppXmlns, AppNamespace, Newline);
    assert NoneIn(AppenginePreamble[0], Newline);
  }

  /** Read back line by line, the descriptor's third line names the
      application after the robot and its fourth fixes the version at 1,
      whatever the robot is called. */
  lemma AppengineWebLines(robotName: string)
    requires NoneIn(robotName, Newline)
    ensures 3 < |Fields(AppengineWeb(robotName), Newline)|
    ensures Fields(AppengineWeb(robotName), Newline)[2] == "    <application>" + robotName + "</application>"
    ensures Fields(AppengineWeb(robotName), Newline)[3] == "    <version>1</version>"
  {
    var app := "    <application>" + robotName + "</application>";
    NoneInAppend("    <application>", robotName, Newline);
    NoneInAppend("    <application>" + robotName, "</application>", Newline);
    AppenginePreambleLines();
    UnlinesSpliceTwo(AppenginePreamble, app, "    <version>1</version>", AppengineSettings);
  }

  /** Two lines placed after `pre` are read back at indices `|pre|` and `|pre| + 1`. */
  lemma UnlinesSpliceTwo(pre: seq<string>, x: string, y: string, post: seq<string>)
    requires SingleLines(pre) && NoneIn(x, Newline) && NoneIn(y, Newline)
    ensures |pre| + 1 < |Fields(Unlines(pre + [x, y] + post), Newline)|
    ensures Fields(Unlines(pre + [x, y] + post), Newline)[|pre|] == x
    ensures Fields(Unlines(pre + [x, y] + post), Newline)[|pre| + 1] == y
  {
    var pre' := pre + [x];
    assert pre + [x, y] + post == pre + [x] + ([y] + post);
    UnlinesSplice(pre, x, [y] + post);
    assert SingleLines(pre') by {
      forall i | 0 <= i < |pre'| ensures NoneIn(pre'[i], Newline) {
        if i < |pre| {
          assert pre'[i] == pre[i];
        }
      }
    }
    assert pre + [x, y] + post == pre' + [y] + post;
    UnlinesSplice(pre', y, post);
  }

  // ---------------------------------------------------------------------
  // config/warble.rb (lines 144-151).

  // The gems and includes settings, each in two pieces.
  const WarbleGems := "  config.gems = %w( "
  const WarbleGemList := "rave json-jruby rack builder )"
  const WarbleIncludes := "  config.includes = %w( "
  const WarbleIncludeList := "robot.rb appengine-web.xml )"

  const WarbleLines: seq<string> := [
      "Warbler::Config.new do |config|",
      WarbleGems + WarbleGemList,
      WarbleIncludes + WarbleIncludeList,
      "end"
  ]

  /** The file's text; it ends in a newline, so `puts` writes it unchanged. */
  function WarbleConfig(): (r: string)
    ensures Puts(r) == r
  {
    Unlines(WarbleLines)
  }

  /** config/warble.rb is exactly its four lines: the Warbler block that
      packages the rave, json-jruby, rack and builder gems and includes
      robot.rb and appengine-web.xml. */
  lemma WarbleConfigLines()
    ensures Fields(WarbleConfig(), Newline) == WarbleLines + [[]]
    ensures |WarbleLines| == 4
  {
    WarbleLinesSingle();
    UnlinesFields(WarbleLines);
  }

  lemma WarbleLinesSingle()
    ensures SingleLines(WarbleLines)
  {
    assert NoneIn(WarbleGems, Newline) && NoneIn(WarbleGemList, Newline);
    assert NoneIn(WarbleIncludes, Newline) && NoneIn(WarbleIncludeList, Newline);
    NoneInAppend(WarbleGems, WarbleGemList, Newline);
    NoneInAppend(WarbleIncludes, WarbleIncludeList, Newline);
    assert NoneIn(WarbleLines[0], Newline) && NoneIn(WarbleLines[3], Newline);
  }
}
