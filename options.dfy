/**
  The options hash of `create_robot` (lib/commands/create.rb, lines 12-16)
  and its rendering into the argument list of the rackup file (line 37).
 */
module Options {
  import opened Wrappers
  import opened Text

  /** A value of the options hash: a string, the integer `1` seeded for
      `:version`, or nil (an argument that has no value part). */
  datatype Value = Str(s: string) | Int(n: nat) | Nil

  /** One key of the hash (a symbol, kept as its name) and its value. */
  datatype Entry = Entry(key: string, value: Value)

  /**
    A Ruby hash as the sequence of its entries in insertion order: the
    order in which `collect` visits them. Storing under a key that is
    already present replaces the value in place.
   */
  type Hash = seq<Entry>

  function Keys(h: Hash): (r: seq<string>)
    ensures |r| == |h|
    ensures forall i :: 0 <= i < |h| ==> r[i] == h[i].key
  {
    if h == [] then [] else [h[0].key] + Keys(h[1..])
  }

  predicate DistinctKeys(h: Hash) {
    forall i, j :: 0 <= i < j < |h| ==> h[i].key != h[j].key
  }

  /** `h[k]`: the value stored under `k`, if any. */
  function Lookup(h: Hash, k: string): (r: Option<Value>)
  {
    if h == [] then None
    else if h[0].key == k then Some(h[0].value)
    else Lookup(h[1..], k)
  }

  /** `h[k] = v`: the hash is never empty afterwards, and grows by at most
      one entry. */
  function Store(h: Hash, k: string, v: Value): (r: Hash)
    ensures 1 <= |r| && |h| <= |r| <= |h| + 1
  {
    if h == [] then [Entry(k, v)]
    else if h[0].key == k then [Entry(k, v)] + h[1..]
    else [h[0]] + Store(h[1..], k, v)
  }

  /** After `h[k] = v`, `h[k]` is `v` and every other key reads as before. */
  lemma {:induction false} StoreLookup(h: Hash, k: string, v: Value)
    ensures Lookup(Store(h, k, v), k) == Some(v)
    ensures forall k' :: k' != k ==> Lookup(Store(h, k, v), k') == Lookup(h, k')
  {
    if h != [] && h[0].key != k {
      StoreLookup(h[1..], k, v);
      assert Store(h, k, v)[1..] == Store(h[1..], k, v);
    }
  }

  /** `h[k] = v` keeps the keys in place and appends `k` when it is new. */
  lemma {:induction false} StoreKeys(h: Hash, k: string, v: Value)
    ensures Keys(Store(h, k, v)) == if k in Keys(h) then Keys(h) else Keys(h) + [k]
  {
    if h != [] {
      var r := Store(h, k, v);
      assert Keys(h) == [h[0].key] + Keys(h[1..]);
      if h[0].key != k {
        var rest := Store(h[1..], k, v);
        StoreKeys(h[1..], k, v);
        assert r == [h[0]] + rest && r[1..] == rest;
        assert Keys(r) == [h[0].key] + Keys(rest);
        assert k in Keys(h) <==> k in Keys(h[1..]);
        if k !in Keys(h) {
          assert [h[0].key] + (Keys(h[1..]) + [k]) == Keys(h) + [k];
        }
      } else {
        assert Keys(r) == [k] + Keys(h[1..]);
      }
    }
  }

  /** `h[k] = v` never duplicates a key. */
  lemma StoreDistinct(h: Hash, k: string, v: Value)
    requires DistinctKeys(h)
    ensures DistinctKeys(Store(h, k, v))
  {
    var r := Store(h, k, v);
    StoreKeys(h, k, v);
    forall i, j | 0 <= i < j < |r| ensures r[i].key != r[j].key {
      assert r[i].key == Keys(r)[i] && r[j].key == Keys(r)[j];
      if j < |h| {
        assert Keys(r)[i] == h[i].key && Keys(r)[j] == h[j].key;
      } else {
        assert k !in Keys(h) && Keys(r)[j] == k;
        assert Keys(r)[i] == Keys(h)[i];
      }
    }
  }

  /** The keys after `h[k] = v` are the old keys and `k`. */
  lemma StoreHasKey(h: Hash, k: string, v: Value, key: string)
    ensures key in Keys(Store(h, k, v)) <==> key in Keys(h) || key == k
  {
    StoreKeys(h, k, v);
  }

  /** A key not yet in the hash is appended at the end (insertion order). */
  lemma {:induction false} StoreNewKey(h: Hash, k: string, v: Value)
    requires k !in Keys(h)
    ensures Store(h, k, v) == h + [Entry(k, v)]
  {
    if h != [] {
      assert Keys(h) == [h[0].key] + Keys(h[1..]);
      assert h[0].key != k && k !in Keys(h[1..]);
      StoreNewKey(h[1..], k, v);
      assert Store(h, k, v) == [h[0]] + Store(h[1..], k, v);
      assert [h[0]] + (h[1..] + [Entry(k, v)]) == h + [Entry(k, v)];
    }
  }

  /** A key already in the hash keeps its position; only its value changes. */
  lemma {:induction false} StoreOldKey(h: Hash, k: string, v: Value, i: nat)
    requires i < |h| && h[i].key == k
    requires forall j :: 0 <= j < i ==> h[j].key != k
    ensures Store(h, k, v) == h[i := Entry(k, v)]
  {
    if i > 0 {
      assert h[0].key != k;
      forall j | 0 <= j < i - 1 ensures h[1..][j].key != k {
        assert h[1..][j] == h[j + 1];
      }
      StoreOldKey(h[1..], k, v, i - 1);
      assert [h[0]] + h[1..][i - 1 := Entry(k, v)] == h[i := Entry(k, v)];
    } else {
      assert [Entry(k, v)] + h[1..] == h[0 := Entry(k, v)];
    }
  }

  /** `{ :name => robot_name, :version => 1 }`. */
  function Seed(robotName: string): (r: Hash)
  {
    [Entry("name", Str(robotName)), Entry("version", Int(1))]
  }

  // ---------------------------------------------------------------------
  // One `key=value` argument (line 14).

  const Equals: set<char> := {'='}

  /** Ruby 1.8 refuses to make a symbol of a string holding a NUL. */
  predicate HoldsNul(key: string)
  {
    '\0' in key
  }

  /** Why Ruby 1.8 raises on an argument: nothing but `=` signs (the key is
      nil, and nil has no `to_sym`), a key that strips to the empty string
      (`"".to_sym` raises "interning empty string"), or a key holding a NUL
      character (a symbol may not contain one). */
  datatype ArgError = NilKey(arg: string) | EmptyKey(arg: string) | NulInKey(arg: string)

  /**
    `key, value = arg.split("=").collect { |part| part.strip }`: the key is
    the first field, the value the second, nil when there is none.
   */
  function ParseArg(arg: string): (r: Result<Entry, ArgError>)
    ensures r.Ok? ==> r.value.key != [] && !HoldsNul(r.value.key) && !r.value.value.Int?
    ensures r.Err? ==> r.error.arg == arg
  {
    var parts := Split(arg, Equals);
    if parts == [] then Err(NilKey(arg))
    else
      var key := Strip(parts[0]);
      if key == [] then Err(EmptyKey(arg))
      else if HoldsNul(key) then Err(NulInKey(arg))
      else Ok(Entry(key, if |parts| > 1 then Str(Strip(parts[1])) else Nil))
  }

  lemma {:induction false} NoSeparators(s: string, seps: set<char>)
    requires NoneIn(s, seps)
    ensures Separators(s, seps) == []
  {
    if s != [] {
      NoSeparators(s[1..], seps);
    }
  }

  /** The text after the first `=` of `arg` (empty when there is none). */
  function AfterFirstEquals(arg: string): (r: string)
  {
    var k := UpTo(arg, Equals);
    if |k| < |arg| then arg[|k| + 1..] else []
  }

  /**
    What `arg.split("=")` yields: no field when the text before the first
    `=` is empty and nothing but `=` signs follow; otherwise that text
    first, and a second field, the text between the first and the second
    `=`, exactly when something other than `=` follows the first `=`.
   */
  lemma ArgFields(arg: string)
    ensures var parts := Split(arg, Equals);
      && (parts == [] ==> UpTo(arg, Equals) == [])
      && (parts != [] ==> parts[0] == UpTo(arg, Equals))
      && (|parts| > 1 <==> SomeNotIn(AfterFirstEquals(arg), Equals))
      && (|parts| > 1 ==> parts[1] == UpTo(AfterFirstEquals(arg), Equals))
  {
    var f := Fields(arg, Equals);
    var parts := Split(arg, Equals);
    var k := UpTo(arg, Equals);
    var after := AfterFirstEquals(arg);
    FieldsHead(arg, Equals);
    assert f[0] == k;
    if |k| < |arg| {
      SomeFieldNonEmpty(after, Equals);
      FieldsHead(after, Equals);
      assert f[1..] == Fields(after, Equals);
      if SomeNotIn(after, Equals) {
        var m :| 0 <= m < |Fields(after, Equals)| && Fields(after, Equals)[m] != [];
        assert f[m + 1] != [];
        assert parts[1] == f[1] == UpTo(after, Equals);
      } else {
        forall m | 1 <= m < |f| ensures f[m] == [] {
          assert f[m] == Fields(after, Equals)[m - 1];
        }
      }
    } else {
      assert k == arg;
      NoSeparators(arg, Equals);
      assert |f| == 1;
    }
  }

  /**
    The argument read character by character: it is refused exactly when
    the text before its first `=` strips to nothing or holds a NUL; otherwise that
    stripped text is the key, and the value is the stripped text between
    the first and the second `=`, or nil when nothing but `=` signs
    follows the first `=` (or there is no `=` at all).
   */
  lemma ParseArgMeaning(arg: string)
    ensures ParseArg(arg).Err? <==> Strip(UpTo(arg, Equals)) == [] || HoldsNul(Strip(UpTo(arg, Equals)))
    ensures ParseArg(arg).Err? && Strip(UpTo(arg, Equals)) != [] ==> ParseArg(arg).error == NulInKey(arg)
    ensures ParseArg(arg).Ok? ==> ParseArg(arg).value.key == Strip(UpTo(arg, Equals))
    ensures ParseArg(arg).Ok? ==>
      ParseArg(arg).value.value ==
        if SomeNotIn(AfterFirstEquals(arg), Equals)
        then Str(Strip(UpTo(AfterFirstEquals(arg), Equals)))
        else Nil
  {
    ArgFields(arg);
    if Split(arg, Equals) == [] {
      assert Strip(UpTo(arg, Equals)) == [];
    }
  }

  /** Before the first `=` of `k=...` lies `k`, after it the rest. */
  lemma KeyThenRest(k: string, vr: string)
    requires NoneIn(k, Equals)
    ensures UpTo(k + "=" + vr, Equals) == k
    ensures AfterFirstEquals(k + "=" + vr) == vr
  {
    var t := "=" + vr;
    var arg := k + "=" + vr;
    assert arg == k + t;
    assert t[0] in Equals;
    UpToPrefix(k, t, Equals);
    assert arg[|k| + 1..] == vr;
  }

  /** `key=value`, possibly followed by further `=`-fields, which are
      ignored: both parts are stripped and the value is a string, unless
      the key holds a NUL. */
  lemma ParseArgKeyValue(k: string, v: string, rest: string)
    requires NoneIn(k, Equals) && NoneIn(v, Equals) && v != []
    requires Strip(k) != []
    requires rest == [] || rest[0] == '='
    ensures ParseArg(k + "=" + v + rest) ==
      if HoldsNul(Strip(k)) then Err(NulInKey(k + "=" + v + rest)) else Ok(Entry(Strip(k), Str(Strip(v))))
  {
    var vr := v + rest;
    var arg := k + "=" + vr;
    assert k + "=" + v + rest == arg;
    KeyThenRest(k, vr);
    UpToPrefix(v, rest, Equals);
    assert vr[0] !in Equals;
    assert SomeNotIn(vr, Equals);
    ParseArgMeaning(arg);
    if !HoldsNul(Strip(k)) {
      assert ParseArg(arg).Ok?;
    }
  }

  /** Before the first `=` of a key followed only by `=` signs lies the key,
      and after it nothing but `=` signs. */
  lemma KeyThenEqualsOnly(k: string, rest: string)
    requires NoneIn(k, Equals) && !SomeNotIn(rest, Equals)
    ensures UpTo(k + rest, Equals) == k
    ensures !SomeNotIn(AfterFirstEquals(k + rest), Equals)
  {
    var arg := k + rest;
    if rest != [] {
      assert rest[0] in Equals;
    }
    UpToPrefix(k, rest, Equals);
    var after := AfterFirstEquals(arg);
    if rest != [] {
      assert after == rest[1..];
      forall i | 0 <= i < |after| ensures after[i] in Equals {
        assert after[i] == rest[i + 1];
      }
    }
  }

  /** An argument with no text after its `=` signs (or with none at all)
      stores nil under its stripped key, unless that key holds a NUL. */
  lemma ParseArgNoValue(k: string, rest: string)
    requires NoneIn(k, Equals) && !SomeNotIn(rest, Equals)
    requires Strip(k) != []
    ensures ParseArg(k + rest) == if HoldsNul(Strip(k)) then Err(NulInKey(k + rest)) else Ok(Entry(Strip(k), Nil))
  {
    KeyThenEqualsOnly(k, rest);
    ParseArgMeaning(k + rest);
    if !HoldsNul(Strip(k)) {
      assert ParseArg(k + rest).Ok?;
    }
  }

  /** Ruby 1.8's `strip` keeps a NUL that whitespace follows, so the key of
      `k\0 =v` is `k\0`, and `to_sym` refuses it. */
  lemma ParseArgNulBeforeSpace(t: string, v: string)
    requires NoneIn(t, Equals) && NoneIn(v, Equals) && v != []
    requires t == [] || (!IsSpace(t[0]) && !IsSpace(t[|t| - 1]) && t[|t| - 1] != '\0')
    ensures var k := t + "\0 "; ParseArg(k + "=" + v) == Err(NulInKey(k + "=" + v))
  {
    var k := t + "\0 ";
    NulBeforeSpaceKey(t);
    ParseArgKeyValue(k, v, "");
    assert k + "=" + v + "" == k + "=" + v;
  }

  /** The key text `t + "\0 "` holds no `=` and strips to a text holding NUL. */
  lemma NulBeforeSpaceKey(t: string)
    requires NoneIn(t, Equals)
    requires t == [] || (!IsSpace(t[0]) && !IsSpace(t[|t| - 1]) && t[|t| - 1] != '\0')
    ensures NoneIn(t + "\0 ", Equals) && Strip(t + "\0 ") != [] && HoldsNul(Strip(t + "\0 "))
  {
    StripNulSpace(t);
    NulSpaceAppend(t, Equals);
  }

  // ---------------------------------------------------------------------
  // All the trailing arguments (lines 13-16).

  /** Every argument parsed, or the error of the first one Ruby raises on. */
  function ParseArgs(args: seq<string>): (r: Result<seq<Entry>, ArgError>)
    ensures r.Ok? ==> |r.value| == |args| && forall i :: 0 <= i < |args| ==> ParseArg(args[i]) == Ok(r.value[i])
  {
    if args == [] then Ok([])
    else match ParseArg(args[0])
      case Err(e) => Err(e)
      case Ok(e) =>
        match ParseArgs(args[1..])
        case Err(e') => Err(e')
        case Ok(es) => Ok([e] + es)
  }

  /** Parsing fails exactly when some argument fails, and then with the error of the first one. */
  lemma {:induction false} ParseArgsFails(args: seq<string>)
    ensures ParseArgs(args).Err? <==> exists i :: 0 <= i < |args| && ParseArg(args[i]).Err?
    ensures ParseArgs(args).Err? ==>
      exists i :: (0 <= i < |args| && ParseArg(args[i]) == Err(ParseArgs(args).error)
        && forall j :: 0 <= j < i ==> ParseArg(args[j]).Ok?)
  {
    if args != [] && ParseArg(args[0]).Ok? {
      var t := args[1..];
      ParseArgsFails(t);
      if ParseArgs(t).Err? {
        var i :| 0 <= i < |t| && ParseArg(t[i]) == Err(ParseArgs(t).error)
          && forall j :: 0 <= j < i ==> ParseArg(t[j]).Ok?;
        assert ParseArg(args[i + 1]) == Err(ParseArgs(args).error);
        forall j | 0 <= j < i + 1 ensures ParseArg(args[j]).Ok? {
          if j > 0 { assert args[j] == t[j - 1]; }
        }
      }
      if exists i :: 0 <= i < |args| && ParseArg(args[i]).Err? {
        var i :| 0 <= i < |args| && ParseArg(args[i]).Err?;
        assert t[i - 1] == args[i];
      }
    } else if args != [] {
      assert ParseArg(args[0]).Err?;
    }
  }

  /** The loop body applied to the remaining arguments: store each parsed
      argument in turn, stopping at the first that raises. */
  function StoreArgs(h: Hash, args: seq<string>): (r: Result<Hash, ArgError>)
    decreases args
    ensures r.Ok? <==> ParseArgs(args).Ok?
  {
    if args == [] then Ok(h)
    else match ParseArg(args[0])
      case Err(e) => Err(e)
      case Ok(e) => StoreArgs(Store(h, e.key, e.value), args[1..])
  }

  /** Store entries in order. */
  function StoreEntries(h: Hash, es: seq<Entry>): (r: Hash)
    decreases es
  {
    if es == [] then h else StoreEntries(Store(h, es[0].key, es[0].value), es[1..])
  }

  /** The options hash built from the robot name and the trailing arguments. */
  function OptionsOf(robotName: string, args: seq<string>): (r: Result<Hash, ArgError>)
    ensures r.Ok? <==> ParseArgs(args).Ok?
  {
    StoreArgs(Seed(robotName), args)
  }

  /**
    The options loop: `options` starts as the seed, and each trailing
    argument is split, stripped and stored under its key.
   */
  method ParseOptions(robotName: string, args: seq<string>) returns (r: Result<Hash, ArgError>)
    ensures r == OptionsOf(robotName, args)
  {
    var options := Seed(robotName);
    var i := 0;
    while i < |args|
      invariant 0 <= i <= |args|
      invariant StoreArgs(options, args[i..]) == OptionsOf(robotName, args)
    {
      assert args[i..][1..] == args[i + 1..];
      match ParseArg(args[i])
      case Err(e) =>
        return Err(e);
      case Ok(entry) =>
        options := Store(options, entry.key, entry.value);
      i := i + 1;
    }
    assert args[i..] == [];
    r := Ok(options);
  }

  /** Storing argument by argument is parsing all arguments, then storing the entries. */
  lemma {:induction false} StoreArgsIsParseThenStore(h: Hash, args: seq<string>)
    decreases args
    ensures StoreArgs(h, args) == match ParseArgs(args)
      case Err(e) => Err(e)
      case Ok(es) => Ok(StoreEntries(h, es))
  {
    if args != [] && ParseArg(args[0]).Ok? {
      var e := ParseArg(args[0]).value;
      StoreArgsIsParseThenStore(Store(h, e.key, e.value), args[1..]);
      if ParseArgs(args[1..]).Ok? {
        var es := ParseArgs(args[1..]).value;
        assert ParseArgs(args) == Ok([e] + es);
        assert ([e] + es)[1..] == es;
      }
    }
  }

  /** Storing entries keeps the existing keys in their positions, appends
      the new ones, and never duplicates a key. */
  lemma {:induction false} StoreEntriesKeys(h: Hash, es: seq<Entry>)
    decreases es
    ensures DistinctKeys(h) ==> DistinctKeys(StoreEntries(h, es))
    ensures Keys(h) <= Keys(StoreEntries(h, es))
  {
    if es != [] {
      var h1 := Store(h, es[0].key, es[0].value);
      StoreKeys(h, es[0].key, es[0].value);
      if DistinctKeys(h) {
        StoreDistinct(h, es[0].key, es[0].value);
      }
      StoreEntriesKeys(h1, es[1..]);
      assert Keys(h) <= Keys(h1);
    }
  }

  /** After storing entries the keys are the old keys and the entries' keys. */
  lemma {:induction false} StoreEntriesHasKey(h: Hash, es: seq<Entry>, k: string)
    decreases es
    ensures k in Keys(StoreEntries(h, es)) <==> k in Keys(h) || exists i :: 0 <= i < |es| && es[i].key == k
  {
    if es != [] {
      var h1 := Store(h, es[0].key, es[0].value);
      var rest := es[1..];
      StoreHasKey(h, es[0].key, es[0].value, k);
      StoreEntriesHasKey(h1, rest, k);
      if exists i :: 0 <= i < |rest| && rest[i].key == k {
        var i :| 0 <= i < |rest| && rest[i].key == k;
        assert es[i + 1].key == k;
      }
      if exists i :: 0 <= i < |es| && es[i].key == k {
        var i :| 0 <= i < |es| && es[i].key == k;
        if i > 0 { assert rest[i - 1].key == k; }
      }
    }
  }

  /** A key that no entry mentions keeps its value. */
  lemma {:induction false} StoreEntriesUntouched(h: Hash, es: seq<Entry>, k: string)
    requires forall i :: 0 <= i < |es| ==> es[i].key != k
    decreases es
    ensures Lookup(StoreEntries(h, es), k) == Lookup(h, k)
  {
    if es != [] {
      var rest := es[1..];
      forall i | 0 <= i < |rest| ensures rest[i].key != k {
        assert rest[i] == es[i + 1];
      }
      StoreLookup(h, es[0].key, es[0].value);
      StoreEntriesUntouched(Store(h, es[0].key, es[0].value), rest, k);
      assert es[0].key != k;
    }
  }

  /** An entry whose key no later entry repeats decides that key's value: the last one wins. */
  lemma {:induction false} StoreEntriesLastWins(h: Hash, es: seq<Entry>, i: nat)
    requires i < |es|
    requires forall j :: i < j < |es| ==> es[j].key != es[i].key
    decreases es
    ensures Lookup(StoreEntries(h, es), es[i].key) == Some(es[i].value)
  {
    var h1 := Store(h, es[0].key, es[0].value);
    var rest := es[1..];
    if i == 0 {
      forall j | 0 <= j < |rest| ensures rest[j].key != es[0].key {
        assert rest[j] == es[j + 1];
      }
      StoreLookup(h, es[0].key, es[0].value);
      StoreEntriesUntouched(h1, rest, es[0].key);
    } else {
      assert rest[i - 1] == es[i];
      forall j | i - 1 < j < |rest| ensures rest[j].key != rest[i - 1].key {
        assert rest[j] == es[j + 1];
      }
      StoreEntriesLastWins(h1, rest, i - 1);
    }
  }

  /** The options loop fails exactly when some argument fails, and then
      with the error of the first one. */
  lemma OptionsFail(robotName: string, args: seq<string>)
    ensures OptionsOf(robotName, args).Err? <==> exists i :: 0 <= i < |args| && ParseArg(args[i]).Err?
    ensures OptionsOf(robotName, args).Err? ==>
      exists i :: (0 <= i < |args| && ParseArg(args[i]) == Err(OptionsOf(robotName, args).error)
        && forall j :: 0 <= j < i ==> ParseArg(args[j]).Ok?)
  {
    StoreArgsIsParseThenStore(Seed(robotName), args);
    ParseArgsFails(args);
  }

  /** A successful run stores the parsed arguments into the seed. */
  lemma OptionsOk(robotName: string, args: seq<string>)
    ensures OptionsOf(robotName, args).Ok? <==> ParseArgs(args).Ok?
    ensures OptionsOf(robotName, args).Ok? ==>
      OptionsOf(robotName, args).value == StoreEntries(Seed(robotName), ParseArgs(args).value)
  {
    StoreArgsIsParseThenStore(Seed(robotName), args);
  }

  /**
    The keys of a successful run's hash: `:name` and `:version` come first,
    in that order; no key appears twice; the keys are exactly those two and
    the keys of the arguments.
   */
  lemma OptionsKeys(robotName: string, args: seq<string>, k: string)
    requires OptionsOf(robotName, args).Ok?
    ensures |Keys(OptionsOf(robotName, args).value)| >= 2
    ensures Keys(OptionsOf(robotName, args).value)[..2] == ["name", "version"]
    ensures DistinctKeys(OptionsOf(robotName, args).value)
    ensures k in Keys(OptionsOf(robotName, args).value) <==>
      k == "name" || k == "version" || exists i :: 0 <= i < |args| && ParseArg(args[i]).value.key == k
  {
    OptionsOk(robotName, args);
    var es := ParseArgs(args).value;
    var seed := Seed(robotName);
    StoreEntriesKeys(seed, es);
    StoreEntriesHasKey(seed, es, k);
    var h := OptionsOf(robotName, args).value;
    assert h == StoreEntries(seed, es);
    assert Keys(seed) == ["name", "version"];
    assert Keys(seed) <= Keys(h);
    assert Keys(h)[..2] == ["name", "version"];
    assert k in Keys(seed) <==> k == "name" || k == "version";
    ArgKeys(args, k);
  }

  /** Some argument has key `k` exactly when some parsed entry does. */
  lemma ArgKeys(args: seq<string>, k: string)
    requires ParseArgs(args).Ok?
    ensures (exists i :: 0 <= i < |args| && ParseArg(args[i]).value.key == k) <==>
      (exists i :: 0 <= i < |ParseArgs(args).value| && ParseArgs(args).value[i].key == k)
  {
    var es := ParseArgs(args).value;
    if exists i :: 0 <= i < |args| && ParseArg(args[i]).value.key == k {
      var i :| 0 <= i < |args| && ParseArg(args[i]).value.key == k;
      assert es[i].key == k;
    }
    if exists i :: 0 <= i < |es| && es[i].key == k {
      var i :| 0 <= i < |es| && es[i].key == k;
      assert ParseArg(args[i]).value.key == k;
    }
  }

  /** An argument's value is kept unless a later argument has the same key. */
  lemma OptionsLastWins(robotName: string, args: seq<string>, i: nat)
    requires OptionsOf(robotName, args).Ok?
    requires i < |args|
    requires forall j :: i < j < |args| ==> ParseArg(args[j]).value.key != ParseArg(args[i]).value.key
    ensures Lookup(OptionsOf(robotName, args).value, ParseArg(args[i]).value.key) == Some(ParseArg(args[i]).value.value)
  {
    OptionsOk(robotName, args);
    var es := ParseArgs(args).value;
    assert ParseArg(args[i]) == Ok(es[i]);
    forall j | i < j < |es| ensures es[j].key != es[i].key {
      assert ParseArg(args[j]) == Ok(es[j]);
    }
    StoreEntriesLastWins(Seed(robotName), es, i);
  }

  /** `:name` stays the robot name and `:version` stays 1 unless an argument
      overrides them. */
  lemma OptionsDefaults(robotName: string, args: seq<string>)
    requires OptionsOf(robotName, args).Ok?
    ensures (forall i :: 0 <= i < |args| ==> ParseArg(args[i]).value.key != "name") ==>
      Lookup(OptionsOf(robotName, args).value, "name") == Some(Str(robotName))
    ensures (forall i :: 0 <= i < |args| ==> ParseArg(args[i]).value.key != "version") ==>
      Lookup(OptionsOf(robotName, args).value, "version") == Some(Int(1))
  {
    OptionsOk(robotName, args);
    var es := ParseArgs(args).value;
    var seed := Seed(robotName);
    assert Lookup(seed, "name") == Some(Str(robotName));
    assert Lookup(seed, "version") == Some(Int(1));
    ArgKeys(args, "name");
    ArgKeys(args, "version");
    if forall i :: 0 <= i < |args| ==> ParseArg(args[i]).value.key != "name" {
      StoreEntriesUntouched(seed, es, "name");
    }
    if forall i :: 0 <= i < |args| ==> ParseArg(args[i]).value.key != "version" {
      StoreEntriesUntouched(seed, es, "version");
    }
  }

  // ---------------------------------------------------------------------
  // The options string (line 37).

  /** `"#{n}"` for an integer. */
  function Decimal(n: nat): (r: string)
    ensures |r| >= 1
    ensures forall i :: 0 <= i < |r| ==> '0' <= r[i] <= '9'
  {
    var d := ['0' + (n % 10) as char];
    if n < 10 then d else Decimal(n / 10) + d
  }

  /** `"#{val}"`: a string as itself, an integer in decimal, nil as the empty string. */
  function Render(v: Value): (r: string)
  {
    match v
    case Str(s) => s
    case Int(n) => Decimal(n)
    case Nil => ""
  }

  /** `":#{key} => \"#{val}\""`. */
  function Item(e: Entry): (r: string)
  {
    ":" + e.key + " => \"" + Render(e.value) + "\""
  }

  function Items(h: Hash): (r: seq<string>)
    ensures |r| == |h| && forall i :: 0 <= i < |h| ==> r[i] == Item(h[i])
  {
    if h == [] then [] else [Item(h[0])] + Items(h[1..])
  }

  /** `options.collect { ... }.join(", ")`: empty exactly for an empty
      hash, and otherwise starting with the first key's colon. */
  function OptionsString(h: Hash): (r: string)
    ensures r == [] <==> h == []
    ensures h != [] ==> r[0] == ':'
  {
    Join(Items(h), ", ")
  }

  /** Every item reads back: a colon, the key, ` => `, and the rendered
      value between double quotes. */
  lemma ItemShape(e: Entry)
    ensures Item(e)[0] == ':'
    ensures Item(e)[1..1 + |e.key|] == e.key
    ensures Item(e)[1 + |e.key|..5 + |e.key|] == " => "
    ensures Item(e)[5 + |e.key|] == '"' && Item(e)[|Item(e)| - 1] == '"'
    ensures Item(e)[6 + |e.key|..|Item(e)| - 1] == Render(e.value)
  {
  }

  /**
    Entries are rendered in the hash's order: a further entry adds one
    `", "` and its item at the end, so the text holds one item per key and
    one separator fewer than items.
   */
  lemma OptionsStringSnoc(h: Hash, e: Entry)
    ensures OptionsString(h + [e]) == if h == [] then Item(e) else OptionsString(h) + ", " + Item(e)
    ensures |OptionsString(h + [e])| == |OptionsString(h)| + |Item(e)| + (if h == [] then 0 else 2)
  {
    assert Items(h + [e]) == Items(h) + [Item(e)];
    if h != [] {
      JoinSnoc(Items(h), Item(e), ", ");
    } else {
      assert Items(h + [e]) == [Item(e)];
    }
  }

  /** The options string holds every item and a `", "` between each two. */
  lemma OptionsStringLength(h: Hash)
    ensures h != [] ==> |OptionsString(h)| == TotalLength(Items(h)) + 2 * (|h| - 1)
    ensures h == [] ==> |OptionsString(h)| == 0
  {
    JoinLength(Items(h), ", ");
  }

  /** With no trailing arguments the options are the seed, written as
      `:name => "<robot name>", :version => "1"`. */
  lemma SeedOptionsString(robotName: string)
    ensures OptionsOf(robotName, []) == Ok(Seed(robotName))
    ensures OptionsString(Seed(robotName)) == ":name => \"" + robotName + "\", :version => \"1\""
  {
    var name := Entry("name", Str(robotName));
    var version := Entry("version", Int(1));
    assert Decimal(1) == "1";
    assert Item(version) == ":version => \"1\"";
    assert Item(name) == ":name => \"" + robotName + "\"";
    assert Seed(robotName) == [name] + [version];
    OptionsStringSnoc([name], version);
    assert Items([name]) == [Item(name)];
    assert OptionsString([name]) == Item(name);
    assert OptionsString(Seed(robotName)) == Item(name) + ", " + Item(version);
    SeedText(robotName, Item(name), Item(version));
  }

  lemma SeedText(robotName: string, x: string, y: string)
    requires x == ":name => \"" + robotName + "\"" && y == ":version => \"1\""
    ensures x + ", " + y == ":name => \"" + robotName + "\", :version => \"1\""
  {
  }
}
