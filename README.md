# rave `create_robot`, modelled in Dafny

This project models the `create_robot` command of rave, a Ruby toolkit for
Google Wave robots (lib/commands/create.rb). Given a robot name and
optional `key=value` arguments, the command:

- derives a Ruby module name from the robot name, and the class name `<Module>::Robot`;
- builds an options hash seeded with `:name` and `:version => 1`, then stores every argument in it;
- creates `./<robot name>` with `robot.rb`, `config.ru`, `appengine-web.xml`, `public/`, `lib/` (with three jars copied in), `config/` and `config/warble.rb`, one operation after the other.

The model is split into six modules, one per file:

- `text.dfy` (`Text`): the Ruby string operations the command relies on.
  - `String#split` on a set of separator characters, with Ruby's dropping of trailing empty fields.
  - `String#strip` as Ruby 1.8 does it: whitespace on the left; on the right, first the trailing NUL characters and then the trailing whitespace, so a NUL that whitespace follows stays.
  - `Array#join`.
- `naming.dfy` (`Naming`): the module name (line 10) and the class name (line 11).
- `options.dfy` (`Options`):
  - the options hash, as an insertion-ordered list of entries;
  - the parsing of each argument, and the loop that stores them (lines 12-16);
  - the options string written into `config.ru` (line 37).
- `templates.dfy` (`Templates`): the four here-documents (lines 66-151), each held as its list of lines.
- `filesystem.dfy` (`FileSystem`): the file system as a map from paths to directories and files.
  - The three operations the command performs: `Dir.mkdir`, `File.open(.., "w")` and `File.copy`. Each one fails with the `Errno` Ruby would raise.
  - `RunPlan`, which runs a list of operations and stops at the first failure. Nothing is rolled back.
  - The class `Disk`, whose `Run` method performs the list on its `entries`.
- `scaffold.dfy` (`Scaffold`): the command itself (lines 8-64).
  - The plan of eleven operations, in the source's order.
  - `CreateRobotSpec`, which gives the outcome and the resulting tree.
  - The method `CreateRobot`, which works on a `Disk`.

What the code does at its edges, and the model with it:

- Line 14 splits an argument on every `=`. The key is the first field and the value the second; later fields are dropped. An argument without a value stores nil, which renders as `""`. An argument that is only `=` signs, or whose key strips to nothing or holds a NUL character, makes `to_sym` raise; in the model that is `ArgError`.
- A missing robot name makes `nil.split` raise; the model returns `NoRobotName`. A name with an empty word (`a__b`, `_a`) makes `+` raise a TypeError, returned as `BadRobotName`. An empty name gives the empty module name; its directory is then the working directory, so `Dir.mkdir` raises `EEXIST`.
- A failing disk operation raises the `Errno` of that operation: `EEXIST`, `ENOENT`, `ENOTDIR` or `EISDIR`. A missing jar stops the command at operation 6, 7 or 8, after the first six operations have already changed the disk. The copy's `stat` raises `ENOENT` when the jar directory exists, and `ENOTDIR` when it, or a directory above it, is a file.

## Model

| member | source | states |
|---|---|---|
| Naming.ModuleNameHasNoSeparators | lib/commands/create.rb:10 | Whenever a module name is produced, it holds no `_` and no `-`. |
| Naming.ModuleName | lib/commands/create.rb:10 | A produced module name equals a reading of the robot name one character at a time: separators are dropped, the first character and every character after a separator are upper-cased, and all other characters are kept. When it fails is stated by `ModuleNameFails`. |
| Naming.ModuleNameFails | lib/commands/create.rb:10 | The derivation raises exactly when an empty word is followed later by a character of a real word. An empty word is a leading separator or a separator right after another. Trailing separators are harmless. |
| Naming.ModuleNameOfFields | lib/commands/create.rb:10 | A name glued from separator-free fields splits into those fields, minus the trailing empty ones. The module name is their capitalised concatenation, or failure if an empty field remains. |
| Naming.ModuleNameOfMyRobot | lib/commands/create.rb:10 | `my_robot` gives `MyRobot`. |
| Naming.SeparatorsAlike | lib/commands/create.rb:10 | `_` and `-` separate words alike: two names that differ only in which separator stands where (`my_robot`, `my-robot`) give the same module name, or both fail. |
| Naming.ModuleNameTrailingSeparator | lib/commands/create.rb:10 | `robot_` gives `Robot`, because `split` drops the trailing empty field. |
| Naming.ModuleNameEmptyWord | lib/commands/create.rb:10 | `a__b` has an empty word in the middle, so the derivation fails. |
| Naming.RobotClassName | lib/commands/create.rb:11 | The class name is the module name followed by `::Robot`, and is 7 characters longer. |
| Naming.RobotClassNameInjective | lib/commands/create.rb:11 | Different module names give different class names. |
| Text.Split | lib/commands/create.rb:10 | `split` keeps the fields of the text in order and drops only empty fields at the end; the last field it keeps is never empty. |
| Text.Strip | lib/commands/create.rb:14 | The stripped text is no longer than the input and neither starts nor ends with whitespace. It can end in a NUL that whitespace followed. |
| Text.InterleaveFields | lib/commands/create.rb:10 | Gluing the fields of a split back together with the separators found gives the original string. |
| Text.FieldsOfInterleave | lib/commands/create.rb:10 | Splitting a string glued from separator-free fields gives those fields back. |
| Text.EmptyKept | lib/commands/create.rb:10 | Once trailing empty fields are dropped, an empty field remains exactly when a non-empty field comes after it. |
| Text.StripShape | lib/commands/create.rb:14 | `strip` returns a contiguous slice of its input. Only whitespace is removed before it; after it, whitespace followed by NUL characters. |
| Text.StripIdempotent | lib/commands/create.rb:14 | A second strip changes nothing when the first result does not end in NUL. |
| Text.StripKeepsNulBeforeSpace | lib/commands/create.rb:14 | Text, a NUL and whitespace strips to the text and the NUL; a second strip then drops the NUL, so Ruby 1.8's strip is not idempotent. |
| Text.StripPadded | lib/commands/create.rb:14 | Whitespace on the left, and whitespace then NULs on the right, is exactly what strip removes from a text that does not start or end with whitespace; a text ending in NUL keeps it only when whitespace follows. |
| Options.ParseArg | lib/commands/create.rb:14-15 | A parsed key is never empty and never holds a NUL, so `to_sym` accepts it. The value is a string or nil, never a number. An error names the argument that raised. |
| Options.ArgFields | lib/commands/create.rb:14 | `split("=")` yields no field when there is nothing but `=` signs. Otherwise the text before the first `=` comes first. A second field, the text between the first and the second `=`, exists exactly when something other than `=` follows the first `=`. |
| Options.ParseArgMeaning | lib/commands/create.rb:14-15 | An argument is refused exactly when the text before its first `=` strips to nothing or holds a NUL; a non-empty key with a NUL is refused as `NulInKey`. Otherwise that stripped text is the key. The value is the stripped text between the first and second `=`, or nil when only `=` signs follow the first `=`. |
| Options.ParseArgKeyValue | lib/commands/create.rb:14-15 | `k=v`, followed by anything that starts with `=`, parses to key `strip(k)` and value `strip(v)`, unless `strip(k)` holds a NUL. |
| Options.ParseArgNulBeforeSpace | lib/commands/create.rb:14-15 | A key written as text, a NUL and a space (`k\0 =v`) strips to text ending in NUL, so `to_sym` refuses the argument. |
| Options.ParseArgNoValue | lib/commands/create.rb:14-15 | An argument with no value part parses to its stripped key and nil, unless that key holds a NUL. |
| Options.ParseArgsFails | lib/commands/create.rb:13-16 | The loop raises exactly when some argument is refused, and then with the error of the first refused argument. |
| Options.ParseOptions | lib/commands/create.rb:12-16 | The loop returns exactly `OptionsOf`: the seed with each argument stored in turn, or the first error. |
| Options.StoreArgsIsParseThenStore | lib/commands/create.rb:13-16 | Storing each argument as it is parsed gives the same result as parsing them all and then storing them all. |
| Options.Store | lib/commands/create.rb:15 | After `h[k] = v` the hash is not empty and has grown by at most one entry. Its meaning per key is stated by `StoreLookup` and `StoreKeys`. |
| Options.StoreLookup | lib/commands/create.rb:15 | After `h[k] = v`, `h[k]` is `v` and every other key reads as before. |
| Options.StoreKeys | lib/commands/create.rb:15 | `h[k] = v` keeps the keys in place, and appends `k` only when it is new. |
| Options.StoreDistinct | lib/commands/create.rb:15 | `h[k] = v` never duplicates a key. |
| Options.StoreNewKey | lib/commands/create.rb:15 | A new key is appended at the end, after every existing entry. |
| Options.StoreOldKey | lib/commands/create.rb:15 | An existing key keeps its position, and only its value changes. |
| Options.StoreEntriesLastWins | lib/commands/create.rb:13-16 | After storing a list of entries, a key reads as its last entry's value. |
| Options.OptionsFail | lib/commands/create.rb:13-16 | The options fail exactly when some argument is refused, and then with the first refused argument's error. |
| Options.OptionsOk | lib/commands/create.rb:12-16 | On success, the options are the seed with every parsed argument stored in order. |
| Options.OptionsKeys | lib/commands/create.rb:12-16 | The options start with `name` then `version` and hold no duplicate key. A key is present exactly when it is `name`, `version`, or the key of some argument. |
| Options.OptionsLastWins | lib/commands/create.rb:13-15 | A key reads as the value of the last argument that sets it. |
| Options.OptionsDefaults | lib/commands/create.rb:12 | `:name` stays the robot name and `:version` stays 1, unless an argument overrides it. |
| Options.OptionsString | lib/commands/create.rb:37 | The options string is empty exactly for an empty hash, and otherwise starts with the first key's colon. Its layout is stated by `ItemShape` and `OptionsStringSnoc`. |
| Options.ItemShape | lib/commands/create.rb:37 | Each item is a colon, the key, ` => `, then the rendered value between double quotes. |
| Options.OptionsStringLength | lib/commands/create.rb:37 | The options string of a non-empty hash is as long as its items together plus two characters for each `, ` between them; an empty hash gives the empty string. |
| Options.OptionsStringSnoc | lib/commands/create.rb:37 | Items are written in hash order, joined with `, `. A further entry adds one separator and its item at the end. |
| Options.SeedOptionsString | lib/commands/create.rb:12-16 | With no further arguments, the options are the seed, written as `:name => "<robot name>", :version => "1"`. |
| Templates.Puts | lib/commands/create.rb:32-34 | `puts` writes the string, plus a newline only when it does not already end in one. |
| Templates.PutsUnlines | lib/commands/create.rb:32-34 | A here-document already ends in a newline, so `puts` writes it unchanged. |
| Templates.UnlinesFields | lib/commands/create.rb:110-115 | Splitting a here-document at its newlines gives back its lines, plus one empty field after the last newline. |
| Templates.RobotFile | lib/commands/create.rb:66-108 | robot.rb's text ends in a newline, so `puts` writes it unchanged. Its lines are stated by `RobotFileLines`. |
| Templates.RobotFileLines | lib/commands/create.rb:66-108 | robot.rb has 39 lines. Read back line by line, line 4 opens `module <Module>` and line 7 sets `ME` to `"<robot name>@appspot.com"`. |
| Templates.RobotLinesFixed | lib/commands/create.rb:66-108 | Every other line of robot.rb is the same for every robot. |
| Templates.ConfigFile | lib/commands/create.rb:110-115 | config.ru's text ends in a newline, so `puts` writes it unchanged. Its lines are stated by `ConfigFileLines`. |
| Templates.ConfigFileLines | lib/commands/create.rb:110-115 | config.ru is exactly two lines: `require 'robot'`, then `run <Class>.new( <options> )`. |
| Templates.AppengineWeb | lib/commands/create.rb:117-142 | appengine-web.xml's text ends in a newline, so `puts` writes it unchanged. Its lines are stated by `AppengineWebLines`. |
| Templates.AppengineLinesFixed | lib/commands/create.rb:117-142 | appengine-web.xml has 22 lines, and only the third depends on the robot. |
| Templates.AppengineWebLines | lib/commands/create.rb:117-142 | Read back line by line, the third line names the application after the robot and the fourth fixes the version at 1. |
| Templates.WarbleConfig | lib/commands/create.rb:144-151 | config/warble.rb's text ends in a newline, so `puts` writes it unchanged. |
| Templates.WarbleConfigLines | lib/commands/create.rb:144-151 | config/warble.rb is exactly its four lines. |
| FileSystem.Write | lib/commands/create.rb:32-45 | Opening a path for writing succeeds exactly when the path is not a directory and its parent is. On a directory it raises `EISDIR`. |
| FileSystem.ParentErrorMeaning | lib/commands/create.rb:29 | When a path cannot be created because a directory above it is not there, the error names the first such directory from the root: `ENOTDIR` when it is a file, `ENOENT` when it is missing. |
| FileSystem.ParentIsFile | lib/commands/create.rb:29 | In a well-formed tree, a parent that exists as a file gives `ENOTDIR`. |
| FileSystem.SourceError | lib/commands/create.rb:54 | A copy whose source is missing raises `ENOENT` or `ENOTDIR`, naming the source; `ENOTDIR` only when the source's directory is not a directory. |
| FileSystem.Step | lib/commands/create.rb:29-63 | An operation succeeds only when its target is not already a directory, and then the target exists. That it adds or replaces only its target is stated by `StepFrame`. |
| FileSystem.StepFrame | lib/commands/create.rb:29-63 | A successful operation keeps the tree well formed and adds or replaces only its target. Every other path stays as it was, and every directory stays a directory. |
| FileSystem.RunPlan | lib/commands/create.rb:27-63 | A run never removes a path, whether it completes or stops; when it stops, the failing operation is one of the plan's. |
| FileSystem.RunFromKeeps | lib/commands/create.rb:27-63 | Every path that existed before a run still exists after it, even when the run stops: nothing is rolled back or deleted. |
| FileSystem.FailFast | lib/commands/create.rb:27-63 | A run that stops at operation `k` leaves the tree the first `k` operations made. The error is the one operation `k` raises on that tree. |
| FileSystem.CompletedPrefixes | lib/commands/create.rb:27-63 | When a run completes, every prefix of it completes too, and the rest continues from there. |
| FileSystem.RunFromWellformed | lib/commands/create.rb:27-63 | A run keeps the tree well formed, whether it completes or stops. |
| FileSystem.FreshPlanCompletes | lib/commands/create.rb:27-63 | A plan where each operation creates a new path whose parent exists completes. It adds exactly those paths, with their contents, and changes nothing else. |
| FileSystem.Disk.Apply | lib/commands/create.rb:29-54 | Performs one operation. On an error the disk is unchanged and the error is returned. |
| FileSystem.Disk.Run | lib/commands/create.rb:27-63 | The loop's result is `RunPlan` of the disk's old tree, and the disk ends holding that result's tree. |
| Scaffold.RobotDir | lib/commands/create.rb:17 | The project directory is the robot name inside the working directory, or the working directory itself when the name is empty. |
| Scaffold.Steps | lib/commands/create.rb:26-63 | The plan has exactly eleven operations; their order is stated by `PlanOrder`. |
| Scaffold.CreateRobotSpec | lib/commands/create.rb:8-64 | The command never removes anything that existed, and a failing operation is one of the eleven of the plan. Its outcomes are stated by `RejectedBeforeDisk`, `CreateTwice`, `FreshCreate` and `FirstJarMissing`. |
| Scaffold.PlanOrder | lib/commands/create.rb:26-63 | The project directory is made first. Every later operation's parent is made by an earlier one: lib before the jars, config before warble.rb. |
| Scaffold.CreateRobot | lib/commands/create.rb:8-64 | The method's error result and the disk it leaves are those of `CreateRobotSpec` on the old disk. |
| Scaffold.RejectedBeforeDisk | lib/commands/create.rb:9-16 | A bad name or a bad option leaves the disk untouched, and a bad option is reported with its error. |
| Scaffold.CreateTwice | lib/commands/create.rb:29 | When the project directory exists, the command fails at operation 0 with `EEXIST` and writes nothing. |
| Scaffold.StepsRun | lib/commands/create.rb:27-63 | On a fresh directory with the jars present, all eleven operations succeed. The result adds exactly the eleven paths, with the templates' texts and the copied jars. |
| Scaffold.FileTextsAreTemplates | lib/commands/create.rb:32-63 | The four files hold exactly the filled-in templates. |
| Scaffold.FreshCreate | lib/commands/create.rb:8-64 | With a good name, good options and a fresh start, the command creates the project laid out from the templates, and changes nothing that already existed. |
| Scaffold.FirstJarMissing | lib/commands/create.rb:52-55 | When the first jar is missing, the run stops at operation 6 with the copy's `stat` error: `ENOENT` when the jar directory exists, `ENOTDIR` when it is a file. The directory, the three files, public and lib it already made stay. Nothing is rolled back. |

## Left out

- The progress messages printed with `puts` (lines 28-60) change no file, so they are not modelled.
- `File.expand_path` is not modelled, and neither is the jar directory derived from `__FILE__` (lines 24-25). The working directory and the jar directory are parameters.
- A robot name is one path component, so a name holding `/`, `.` or `..` is not resolved as a path.
- Ruby exceptions are modelled as values (`Result`, `Option`, `Outcome`, `CreateError`). Exception classes and messages are not modelled.
- `File.copy` (Ruby 1.8's ftools, which is not part of this model) is modelled by what its code does:
  - a missing source raises `ENOENT`, or `ENOTDIR` when a directory above it is a file;
  - a directory destination receives the file under the source's name;
  - a directory source opens, but its first read fails and the copy rescues that; the destination is left empty and the command carries on;
  - otherwise the destination is written with the source's content.

  The mode copied onto a new destination is not modelled, and neither are permissions, full disks or links.
- Ruby 1.8 does not promise any order for hashes. The options string is modelled in insertion order, with a replaced key keeping its place.
- Strings are sequences of characters, with no byte encoding. `upcase` changes only ASCII letters, as Ruby 1.8 does.
- Templates.RobotFileLines: only the two robot-dependent lines of robot.rb are read back by index. The other 37 are stated to be robot-independent by `RobotLinesFixed`, not read back one by one.
- Scaffold.FirstJarMissing: covers only a missing first jar. A missing second or third jar stops at operation 7 or 8 in the same way. That follows from `FileSystem.FailFast`, but is not stated per jar.
