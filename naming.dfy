/**
  How `create_robot` turns the robot name into the Ruby module name and the
  robot class name (lib/commands/create.rb, lines 10 and 11).
 */
module Naming {
  import opened Wrappers
  import opened Text

  /** The robot name is split on `/_|-/`. */
  const WordSeparators: set<char> := {'_', '-'}

  /** The words of the robot name, as `robot_name.split(/_|-/)` gives them. */
  function Words(name: string): (r: seq<string>)
  {
    Split(name, WordSeparators)
  }

  /** `word[0, 1].upcase + word[1, word.length - 1]`; only ever applied to a non-empty word. */
  function Capitalize(word: string): (r: string)
  {
    if word == [] then [] else [Upcase(word[0])] + word[1..]
  }

  /** The capitalised words, concatenated (`.collect { ... }.join("")`). */
  function CapitalizeAll(words: seq<string>): (r: string)
  {
    if words == [] then [] else Capitalize(words[0]) + CapitalizeAll(words[1..])
  }

  /**
    The module name. For an empty word (`a__b`, `_a`) Ruby evaluates
    `word[1, -1]` to nil and `+` raises a TypeError; that outcome is None.
    Whenever the name exists it is the character reading of the robot name:
    separators dropped, the first character and every character after a
    separator upper-cased, all others kept.
   */
  function ModuleName(name: string): (r: Option<string>)
    ensures r.Some? ==> r.value == Camel(name, true)
  {
    var words := Words(name);
    CamelOfFields(name);
    CapitalizeAllDropTrailing(Fields(name, WordSeparators));
    if [] in words then None else Some(CapitalizeAll(words))
  }

  /** `"#{module_name}::Robot"`. */
  function RobotClassName(moduleName: string): (r: string)
    ensures |r| == |moduleName| + 7
    ensures r[..|moduleName|] == moduleName && r[|moduleName|..] == "::Robot"
  {
    moduleName + "::Robot"
  }

  /** The class name determines the module name it was built from. */
  lemma RobotClassNameInjective(m1: string, m2: string)
    requires RobotClassName(m1) == RobotClassName(m2)
    ensures m1 == m2
  {
    assert |m1| == |m2|;
    assert m1 == RobotClassName(m1)[..|m1|];
  }

  // ---------------------------------------------------------------------
  // An independent, character-by-character reading of the naming rule.

  /**
    Reads the name one character at a time: every separator is dropped, and
    a character is upper-cased exactly when it starts the name or follows a
    separator (`atWordStart`); every other character is kept as it is.
   */
  function Camel(s: string, atWordStart: bool): (r: string)
  {
    if s == [] then []
    else if s[0] in WordSeparators then Camel(s[1..], true)
    else [if atWordStart then Upcase(s[0]) else s[0]] + Camel(s[1..], false)
  }

  /** The separator at `i` ends an empty word: the word before it started at
      the beginning of `s` (when `atStart`) or right after another separator. */
  predicate EndsEmptyWord(s: string, i: nat, atStart: bool)
    requires i < |s|
  {
    s[i] in WordSeparators && (if i == 0 then atStart else s[i - 1] in WordSeparators)
  }

  /** Some empty word of `s` is followed, later on, by a character of a real word. */
  predicate EmptyWordBeforeWord(s: string, atStart: bool)
  {
    exists i: nat, j :: i < j < |s| && EndsEmptyWord(s, i, atStart) && s[j] !in WordSeparators
  }

  /** Some empty field is followed by a non-empty one. */
  predicate EmptyBeforeNonEmpty(f: seq<string>)
  {
    exists k, m :: 0 <= k < m < |f| && f[k] == [] && f[m] != []
  }

  /** Appending empty words adds nothing to the concatenation. */
  lemma {:induction false} CapitalizeAllEmptyTail(a: seq<string>, b: seq<string>)
    requires forall i :: 0 <= i < |b| ==> b[i] == []
    ensures CapitalizeAll(a + b) == CapitalizeAll(a)
  {
    if a == [] {
      assert a + b == b;
      CapitalizeAllEmpties(b);
    } else {
      assert (a + b)[0] == a[0] && (a + b)[1..] == a[1..] + b;
      CapitalizeAllEmptyTail(a[1..], b);
    }
  }

  lemma {:induction false} CapitalizeAllEmpties(f: seq<string>)
    requires forall i :: 0 <= i < |f| ==> f[i] == []
    ensures CapitalizeAll(f) == []
  {
    if f != [] {
      CapitalizeAllEmpties(f[1..]);
    }
  }

  /** Dropping the trailing empty words does not change the concatenation. */
  lemma CapitalizeAllDropTrailing(f: seq<string>)
    ensures CapitalizeAll(DropTrailingEmpty(f)) == CapitalizeAll(f)
  {
    var r := DropTrailingEmpty(f);
    assert f == r + f[|r|..];
    CapitalizeAllEmptyTail(r, f[|r|..]);
  }

  /** The character reading agrees with split-capitalise-join on every field,
      empty ones included. */
  lemma {:induction false} CamelOfFields(s: string)
    ensures Camel(s, true) == CapitalizeAll(Fields(s, WordSeparators))
    ensures Camel(s, false) == Fields(s, WordSeparators)[0] + CapitalizeAll(Fields(s, WordSeparators)[1..])
  {
    if s != [] {
      var t := s[1..];
      CamelOfFields(t);
      var g := Fields(t, WordSeparators);
      if s[0] in WordSeparators {
        assert Fields(s, WordSeparators) == [[]] + g;
        assert ([[]] + g)[1..] == g;
      } else {
        var f := Fields(s, WordSeparators);
        assert f == [[s[0]] + g[0]] + g[1..];
        assert f[1..] == g[1..];
        assert CapitalizeAll(f) == Capitalize(f[0]) + CapitalizeAll(g[1..]);
        assert Capitalize(f[0]) == [Upcase(s[0])] + g[0];
      }
    }
  }

  /** Upper-casing never produces a separator, so none survives. */
  lemma {:induction false} CamelHasNoSeparators(s: string, atWordStart: bool)
    ensures NoneIn(Camel(s, atWordStart), WordSeparators)
  {
    if s != [] {
      CamelHasNoSeparators(s[1..], s[0] in WordSeparators);
      CamelHasNoSeparators(s[1..], false);
    }
  }

  /** No `_` or `-` survives in the module name. */
  lemma ModuleNameHasNoSeparators(name: string)
    requires ModuleName(name).Some?
    ensures NoneIn(ModuleName(name).value, WordSeparators)
  {
    CamelHasNoSeparators(name, true);
  }

  /** Taking one character off the front of the name. */
  lemma EmptyWordBeforeWordCons(s: string, atStart: bool)
    requires s != []
    ensures EmptyWordBeforeWord(s, atStart) <==>
      (s[0] in WordSeparators && atStart && SomeNotIn(s[1..], WordSeparators))
      || EmptyWordBeforeWord(s[1..], s[0] in WordSeparators)
  {
    var t := s[1..];
    if EmptyWordBeforeWord(s, atStart) {
      var i: nat, j :| i < j < |s| && EndsEmptyWord(s, i, atStart) && s[j] !in WordSeparators;
      if i == 0 {
        assert t[j - 1] !in WordSeparators;
      } else {
        assert EndsEmptyWord(t, i - 1, s[0] in WordSeparators) && t[j - 1] !in WordSeparators;
      }
    }
    if s[0] in WordSeparators && atStart && SomeNotIn(t, WordSeparators) {
      var j :| 0 <= j < |t| && t[j] !in WordSeparators;
      assert EndsEmptyWord(s, 0, atStart) && s[j + 1] !in WordSeparators;
    }
    if EmptyWordBeforeWord(t, s[0] in WordSeparators) {
      var i: nat, j :| i < j < |t| && EndsEmptyWord(t, i, s[0] in WordSeparators) && t[j] !in WordSeparators;
      assert EndsEmptyWord(s, i + 1, atStart) && s[j + 1] !in WordSeparators;
    }
  }

  lemma EmptyBeforeNonEmptyCons(x: string, g: seq<string>)
    ensures EmptyBeforeNonEmpty([x] + g) <==>
      (x == [] && exists m :: 0 <= m < |g| && g[m] != []) || EmptyBeforeNonEmpty(g)
  {
    var f := [x] + g;
    if EmptyBeforeNonEmpty(f) {
      var k, m :| 0 <= k < m < |f| && f[k] == [] && f[m] != [];
      if k == 0 {
        assert g[m - 1] != [];
      } else {
        assert g[k - 1] == [] && g[m - 1] != [];
      }
    }
    if x == [] && exists m :: 0 <= m < |g| && g[m] != [] {
      var m :| 0 <= m < |g| && g[m] != [];
      assert f[0] == [] && f[m + 1] != [];
    }
    if EmptyBeforeNonEmpty(g) {
      var k, m :| 0 <= k < m < |g| && g[k] == [] && g[m] != [];
      assert f[k + 1] == [] && f[m + 1] != [];
    }
  }

  /** The character-level condition is exactly an empty field followed by a non-empty one. */
  lemma {:induction false} EmptyWordFields(s: string)
    ensures EmptyWordBeforeWord(s, true) <==> EmptyBeforeNonEmpty(Fields(s, WordSeparators))
    ensures EmptyWordBeforeWord(s, false) <==> EmptyBeforeNonEmpty(Fields(s, WordSeparators)[1..])
  {
    if s != [] {
      var t := s[1..];
      EmptyWordFields(t);
      EmptyWordBeforeWordCons(s, true);
      EmptyWordBeforeWordCons(s, false);
      var g := Fields(t, WordSeparators);
      var f := Fields(s, WordSeparators);
      if s[0] in WordSeparators {
        assert f == [[]] + g;
        assert f[1..] == g;
        SomeFieldNonEmpty(t, WordSeparators);
        EmptyBeforeNonEmptyCons([], g);
      } else {
        assert f == [[s[0]] + g[0]] + g[1..];
        assert f[1..] == g[1..];
        EmptyBeforeNonEmptyCons([s[0]] + g[0], g[1..]);
        EmptyBeforeNonEmptyCons(g[0], g[1..]);
        assert g == [g[0]] + g[1..];
      }
    }
  }

  /**
    The derivation fails (Ruby raises) exactly when the robot name has an
    empty word that a real word follows: it starts with a separator or
    holds two separators in a row, before some non-separator character.
    Trailing separators are harmless, because `split` drops trailing empty fields.
   */
  lemma ModuleNameFails(name: string)
    ensures ModuleName(name).None? <==> EmptyWordBeforeWord(name, true)
  {
    EmptyKept(Fields(name, WordSeparators));
    EmptyWordFields(name);
  }

  /** The module name of a name given as its fields and the separators between them. */
  lemma ModuleNameOfFields(name: string, fields: seq<string>, glue: string)
    requires |fields| == |glue| + 1 && name == Interleave(fields, glue)
    requires forall i :: 0 <= i < |fields| ==> NoneIn(fields[i], WordSeparators)
    requires forall i :: 0 <= i < |glue| ==> glue[i] in WordSeparators
    ensures Words(name) == DropTrailingEmpty(fields)
    ensures ModuleName(name) == if [] in DropTrailingEmpty(fields) then None
                                else Some(CapitalizeAll(DropTrailingEmpty(fields)))
  {
    FieldsOfInterleave(fields, glue, WordSeparators);
  }

  /** The worked case of the command's documentation. */
  lemma ModuleNameOfMyRobot(name: string)
    requires name == "my_robot"
    ensures ModuleName(name) == Some("MyRobot")
  {
    ModuleNameOfFields(name, ["my", "robot"], "_");
    assert DropTrailingEmpty(["my", "robot"]) == ["my", "robot"];
    assert CapitalizeAll(["my", "robot"]) == "MyRobot" by {
      assert CapitalizeAll(["robot"]) == "Robot";
    }
  }

  /** `a` and `b` differ at most in which separator stands where. */
  predicate SameUpToSeparators(a: string, b: string)
  {
    && |a| == |b|
    && forall i :: 0 <= i < |a| ==>
         (a[i] in WordSeparators <==> b[i] in WordSeparators)
         && (a[i] !in WordSeparators ==> a[i] == b[i])
  }

  lemma {:induction false} FieldsUpToSeparators(a: string, b: string)
    requires SameUpToSeparators(a, b)
    ensures Fields(a, WordSeparators) == Fields(b, WordSeparators)
  {
    if a != [] {
      assert SameUpToSeparators(a[1..], b[1..]) by {
        forall i | 0 <= i < |a[1..]|
          ensures (a[1..][i] in WordSeparators <==> b[1..][i] in WordSeparators)
            && (a[1..][i] !in WordSeparators ==> a[1..][i] == b[1..][i])
        {
          assert a[1..][i] == a[i + 1] && b[1..][i] == b[i + 1];
        }
      }
      FieldsUpToSeparators(a[1..], b[1..]);
      assert a[0] in WordSeparators <==> b[0] in WordSeparators;
    }
  }

  /** `/_|-/` treats both separators alike: `my-robot` and `my_robot`, or
      any two names that differ only in which separator stands where, give
      the same module name, or both fail. */
  lemma SeparatorsAlike(a: string, b: string)
    requires SameUpToSeparators(a, b)
    ensures ModuleName(a) == ModuleName(b)
  {
    FieldsUpToSeparators(a, b);
  }

  /** A trailing separator is dropped. */
  lemma ModuleNameTrailingSeparator(name: string)
    requires name == "robot_"
    ensures ModuleName(name) == Some("Robot")
  {
    ModuleNameOfFields(name, ["robot", ""], "_");
    assert DropTrailingEmpty(["robot", ""]) == ["robot"];
    assert CapitalizeAll(["robot"]) == "Robot" by {
      assert CapitalizeAll([]) == [];
    }
  }

  /** An empty word inside the name is refused. */
  lemma ModuleNameEmptyWord(name: string)
    requires name == "a__b"
    ensures ModuleName(name).None?
  {
    ModuleNameOfFields(name, ["a", "", "b"], "__");
    assert DropTrailingEmpty(["a", "", "b"]) == ["a", "", "b"];
  }
}
