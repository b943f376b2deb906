/** Option and Result, as the rest of the model uses them. */
module Wrappers {
  datatype Option<T> = None | Some(value: T)

  datatype Result<T, E> = Ok(value: T) | Err(error: E)
}

/**
  The Ruby 1.8 string operations the scaffolder relies on, over strings seen
  as sequences of characters: `String#split` with a set of one-character
  separators, `String#strip`, `String#upcase` on one character, and
  `Array#join`.
 */
module Text {

  /** True when no character of `s` is one of `seps`. */
  predicate NoneIn(s: string, seps: set<char>) {
    forall i :: 0 <= i < |s| ==> s[i] !in seps
  }

  /** True when some character of `s` is not one of `seps`. */
  predicate SomeNotIn(s: string, seps: set<char>) {
    exists i :: 0 <= i < |s| && s[i] !in seps
  }

  /** The separator characters of `s`, in order. */
  function Separators(s: string, seps: set<char>): (r: string)
    ensures forall i :: 0 <= i < |r| ==> r[i] in seps
    ensures |r| <= |s|
  {
    if s == [] then []
    else if s[0] in seps then [s[0]] + Separators(s[1..], seps)
    else Separators(s[1..], seps)
  }

  /**
    Every field of `s` between separators, empty ones included: one more
    field than there are separators. This is what `String#split` computes
    before it drops the trailing empty fields.
   */
  function Fields(s: string, seps: set<char>): (r: seq<string>)
    ensures |r| == |Separators(s, seps)| + 1
    ensures forall i :: 0 <= i < |r| ==> NoneIn(r[i], seps)
  {
    if s == [] then [[]]
    else
      var rest := Fields(s[1..], seps);
      if s[0] in seps then [[]] + rest
      else [[s[0]] + rest[0]] + rest[1..]
  }

  /** The text of `s` up to (not including) its first separator. */
  function UpTo(s: string, seps: set<char>): (r: string)
    ensures r <= s
    ensures NoneIn(r, seps)
    ensures |r| < |s| ==> s[|r|] in seps
  {
    if s == [] || s[0] in seps then [] else [s[0]] + UpTo(s[1..], seps)
  }

  /** Puts the fields back together with the given separator characters between them. */
  function Interleave(fields: seq<string>, glue: string): (s: string)
    requires |fields| == |glue| + 1
  {
    if glue == [] then fields[0]
    else fields[0] + [glue[0]] + Interleave(fields[1..], glue[1..])
  }

  /** Splitting and joining back with the same separators gives back the text. */
  lemma {:induction false} InterleaveFields(s: string, seps: set<char>)
    ensures Interleave(Fields(s, seps), Separators(s, seps)) == s
  {
    if s != [] {
      InterleaveFields(s[1..], seps);
      var rest := Fields(s[1..], seps);
      var glue := Separators(s[1..], seps);
      if s[0] !in seps {
        if glue == [] {
          assert Fields(s, seps) == [[s[0]] + rest[0]];
        } else {
          assert Interleave(rest, glue) == rest[0] + [glue[0]] + Interleave(rest[1..], glue[1..]);
          assert Fields(s, seps)[1..] == rest[1..];
        }
      } else {
        assert Fields(s, seps)[1..] == rest;
        assert s == [s[0]] + s[1..];
      }
    }
  }

  /** The first field of `s` is the text before its first separator, and the
      remaining fields are those of the text after that separator. */
  lemma {:induction false} FieldsHead(s: string, seps: set<char>)
    ensures Fields(s, seps)[0] == UpTo(s, seps)
    ensures |UpTo(s, seps)| < |s| ==>
      Fields(s, seps)[1..] == Fields(s[|UpTo(s, seps)| + 1..], seps)
  {
    if s != [] && s[0] !in seps {
      var t := s[1..];
      FieldsHead(t, seps);
      var rest := Fields(t, seps);
      assert Fields(s, seps) == [[s[0]] + rest[0]] + rest[1..];
      if |UpTo(s, seps)| < |s| {
        assert |UpTo(t, seps)| < |t|;
        assert t[|UpTo(t, seps)| + 1..] == s[|UpTo(s, seps)| + 1..];
      }
    } else if s != [] {
      assert s[1..] == s[0 + 1..];
    }
  }

  /** Text without separators in front of the rest of `t` extends the first field of `t`. */
  lemma {:induction false} FieldsOfPrefix(a: string, t: string, seps: set<char>)
    requires NoneIn(a, seps)
    ensures Fields(a + t, seps) == [a + Fields(t, seps)[0]] + Fields(t, seps)[1..]
  {
    if a != [] {
      FieldsOfPrefix(a[1..], t, seps);
      assert (a + t)[0] == a[0] && (a + t)[1..] == a[1..] + t;
      assert a[0] !in seps;
      var ft := Fields(t, seps);
      var r := Fields(a[1..] + t, seps);
      assert r[0] == a[1..] + ft[0] && r[1..] == ft[1..];
      assert Fields(a + t, seps) == [[a[0]] + r[0]] + r[1..];
      assert [a[0]] + (a[1..] + Fields(t, seps)[0]) == a + Fields(t, seps)[0];
    } else {
      var ft := Fields(t, seps);
      assert a + t == t && a + ft[0] == ft[0];
      assert [ft[0]] + ft[1..] == ft;
    }
  }

  /** Joining fields that hold no separator with separator characters and
      splitting the result gives back exactly those fields. */
  lemma {:induction false} FieldsOfInterleave(fields: seq<string>, glue: string, seps: set<char>)
    requires |fields| == |glue| + 1
    requires forall i :: 0 <= i < |fields| ==> NoneIn(fields[i], seps)
    requires forall i :: 0 <= i < |glue| ==> glue[i] in seps
    ensures Fields(Interleave(fields, glue), seps) == fields
  {
    if glue == [] {
      FieldsOfPrefix(fields[0], [], seps);
      assert fields[0] + [] == fields[0];
    } else {
      var tail := Interleave(fields[1..], glue[1..]);
      FieldsOfInterleave(fields[1..], glue[1..], seps);
      FieldsOfPrefix(fields[0], [glue[0]] + tail, seps);
      assert ([glue[0]] + tail)[0] == glue[0];
      assert Fields([glue[0]] + tail, seps) == [[]] + Fields(tail, seps);
      assert fields[0] + [glue[0]] + tail == fields[0] + ([glue[0]] + tail);
      assert ([glue[0]] + tail)[1..] == tail;
      assert fields[0] + [] == fields[0];
      assert fields == [fields[0]] + fields[1..];
    }
  }

  /** Text is free of separators exactly when both of its parts are. */
  lemma NoneInAppend(a: string, b: string, seps: set<char>)
    ensures NoneIn(a + b, seps) <==> NoneIn(a, seps) && NoneIn(b, seps)
  {
    if NoneIn(a, seps) && NoneIn(b, seps) {
      forall i | 0 <= i < |a + b| ensures (a + b)[i] !in seps {
        if i >= |a| { assert (a + b)[i] == b[i - |a|]; }
      }
    }
    if NoneIn(a + b, seps) {
      forall i | 0 <= i < |b| ensures b[i] !in seps {
        assert (a + b)[|a| + i] == b[i];
      }
      forall i | 0 <= i < |a| ensures a[i] !in seps {
        assert (a + b)[i] == a[i];
      }
    }
  }

  /** Some field is non-empty exactly when some character is not a separator. */
  lemma {:induction false} SomeFieldNonEmpty(s: string, seps: set<char>)
    ensures (exists k :: 0 <= k < |Fields(s, seps)| && Fields(s, seps)[k] != []) <==> SomeNotIn(s, seps)
  {
    if s != [] {
      SomeFieldNonEmpty(s[1..], seps);
      var rest := Fields(s[1..], seps);
      var f := Fields(s, seps);
      if s[0] in seps {
        assert f == [[]] + rest;
        if SomeNotIn(s[1..], seps) {
          var k :| 0 <= k < |rest| && rest[k] != [];
          assert f[k + 1] != [];
        }
        if SomeNotIn(s, seps) {
          var i :| 0 <= i < |s| && s[i] !in seps;
          assert s[1..][i - 1] !in seps;
        }
        if exists k :: 0 <= k < |f| && f[k] != [] {
          var k :| 0 <= k < |f| && f[k] != [];
          assert k != 0;
          assert 0 <= k - 1 < |rest| && rest[k - 1] != [];
          assert exists j :: 0 <= j < |Fields(s[1..], seps)| && Fields(s[1..], seps)[j] != [];
          assert SomeNotIn(s[1..], seps);
          var i :| 0 <= i < |s[1..]| && s[1..][i] !in seps;
          assert s[i + 1] !in seps;
        }
      } else {
        assert f[0] != [];
        assert s[0] !in seps;
      }
    }
  }

  /** Ruby's `String#split` with a pattern matching one separator character:
      the fields, with the trailing empty ones dropped. */
  function Split(s: string, seps: set<char>): (r: seq<string>)
    ensures r <= Fields(s, seps)
    ensures forall i :: |r| <= i < |Fields(s, seps)| ==> Fields(s, seps)[i] == []
    ensures r != [] ==> r[|r| - 1] != []
  {
    DropTrailingEmpty(Fields(s, seps))
  }

  /** The longest prefix of `f` that does not end with an empty string. */
  function DropTrailingEmpty(f: seq<string>): (r: seq<string>)
    ensures r <= f
    ensures forall i :: |r| <= i < |f| ==> f[i] == []
    ensures r != [] ==> r[|r| - 1] != []
  {
    if f == [] then []
    else if f[|f| - 1] == [] then DropTrailingEmpty(f[..|f| - 1])
    else f
  }

  /** An empty field survives the dropping exactly when a non-empty field follows it. */
  lemma EmptyKept(f: seq<string>)
    ensures [] in DropTrailingEmpty(f) <==>
      exists k, m :: 0 <= k < m < |f| && f[k] == [] && f[m] != []
  {
    if [] in DropTrailingEmpty(f) {
      EmptyKeptHasLater(f);
    }
    if exists k, m :: 0 <= k < m < |f| && f[k] == [] && f[m] != [] {
      var k, m :| 0 <= k < m < |f| && f[k] == [] && f[m] != [];
      EmptyBeforeNonEmptyKept(f, k, m);
    }
  }

  lemma EmptyKeptHasLater(f: seq<string>)
    requires [] in DropTrailingEmpty(f)
    ensures exists k, m :: 0 <= k < m < |f| && f[k] == [] && f[m] != []
  {
    var r := DropTrailingEmpty(f);
    var k :| 0 <= k < |r| && r[k] == [];
    var m := |r| - 1;
    assert f[..|r|] == r;
    assert r[k] == f[k] && r[m] == f[m];
    assert r[m] != [];
  }

  lemma EmptyBeforeNonEmptyKept(f: seq<string>, k: nat, m: nat)
    requires k < m < |f| && f[k] == [] && f[m] != []
    ensures [] in DropTrailingEmpty(f)
  {
    var r := DropTrailingEmpty(f);
    assert m < |r|;
    assert r[k] == f[k];
  }

  predicate IsLower(c: char) { 'a' <= c <= 'z' }

  /** Ruby 1.8 `upcase` on one character: ASCII letters only. */
  function Upcase(c: char): (r: char)
    ensures IsLower(c) ==> 'A' <= r <= 'Z' && r as int == c as int - 32
    ensures !IsLower(c) ==> r == c
  {
    if IsLower(c) then (c as int - 32) as char else c
  }

  /** Ruby's whitespace for `strip`: space, tab, line feed, vertical tab, form feed, carriage return. */
  predicate IsSpace(c: char) {
    c == ' ' || c == '\t' || c == '\n' || c == '\U{0B}' || c == '\U{0C}' || c == '\r'
  }

  /** `lstrip`: leading whitespace removed. */
  function LStrip(s: string): (r: string)
    ensures |r| <= |s| && r == s[|s| - |r|..]
    ensures forall i :: 0 <= i < |s| - |r| ==> IsSpace(s[i])
    ensures r == [] || !IsSpace(r[0])
  {
    if s != [] && IsSpace(s[0]) then LStrip(s[1..]) else s
  }

  /** The first pass of Ruby 1.8's `rstrip`: trailing NUL characters removed. */
  function RNul(s: string): (r: string)
    ensures r <= s
    ensures forall i :: |r| <= i < |s| ==> s[i] == '\0'
    ensures r == [] || r[|r| - 1] != '\0'
  {
    if s != [] && s[|s| - 1] == '\0' then RNul(s[..|s| - 1]) else s
  }

  /** The second pass of Ruby 1.8's `rstrip`: trailing whitespace removed. */
  function RSpace(s: string): (r: string)
    ensures r <= s
    ensures forall i :: |r| <= i < |s| ==> IsSpace(s[i])
    ensures r == [] || !IsSpace(r[|r| - 1])
  {
    if s != [] && IsSpace(s[|s| - 1]) then RSpace(s[..|s| - 1]) else s
  }

  /** `rstrip` in Ruby 1.8: trailing NUL characters removed first, then
      trailing whitespace; a NUL in front of that whitespace stays. */
  function RStrip(s: string): (r: string)
    ensures r <= s
    ensures r == [] || !IsSpace(r[|r| - 1])
  {
    RSpace(RNul(s))
  }

  /** `strip`: `lstrip` then `rstrip`. */
  function Strip(s: string): (r: string)
    ensures |r| <= |s|
    ensures r != [] ==> !IsSpace(r[0]) && !IsSpace(r[|r| - 1])
  {
    RStrip(LStrip(s))
  }

  /** Cutting `s` at `i <= j <= m` leaves whitespace before `i`, whitespace
      from `j` to `m`, and NUL characters from `m` on. */
  predicate StripCut(s: string, i: int, j: int, m: int) {
    0 <= i <= j <= m <= |s| &&
    (forall k :: 0 <= k < i ==> IsSpace(s[k])) &&
    (forall k :: j <= k < m ==> IsSpace(s[k])) &&
    (forall k :: m <= k < |s| ==> s[k] == '\0')
  }

  /** `strip` keeps a contiguous middle part of the text; in front of it
      it drops whitespace, behind it whitespace followed by NUL characters. */
  lemma StripShape(s: string)
    ensures exists i, j, m :: StripCut(s, i, j, m) && Strip(s) == s[i..j]
  {
    var l := LStrip(s);
    var i := |s| - |l|;
    var n := RNul(l);
    var r := RSpace(n);
    var j, m := i + |r|, i + |n|;
    assert l == s[i..];
    assert r == l[..|r|];
    assert r == s[i..j] by {
      assert s[i..][..|r|] == s[i..j];
    }
    forall k | j <= k < m ensures IsSpace(s[k]) {
      assert s[k] == l[k - i] == n[k - i];
    }
    forall k | m <= k < |s| ensures s[k] == '\0' {
      assert s[k] == l[k - i];
    }
    assert forall k :: 0 <= k < i ==> IsSpace(s[k]);
    assert StripCut(s, i, j, m) && Strip(s) == s[i..j];
  }

  /** A second `strip` removes nothing when the first result does not end
      in NUL; when it does, the second one goes on stripping. */
  lemma StripIdempotent(s: string)
    ensures Strip(s) == [] || Strip(s)[|Strip(s)| - 1] != '\0' ==> Strip(Strip(s)) == Strip(s)
  {
    var t := Strip(s);
    if t == [] || t[|t| - 1] != '\0' {
      assert LStrip(t) == t;
      assert RNul(t) == t;
      assert RSpace(t) == t;
    }
  }

  /** Ruby 1.8 strips `t + "\0" + sp`, with `sp` whitespace, to `t + "\0"`,
      and a second `strip` takes the NUL as well: `strip` is then not
      idempotent. */
  lemma StripKeepsNulBeforeSpace(t: string, sp: string)
    requires t == [] || (!IsSpace(t[0]) && !IsSpace(t[|t| - 1]) && t[|t| - 1] != '\0')
    requires sp != [] && forall k :: 0 <= k < |sp| ==> IsSpace(sp[k])
    ensures Strip(t + "\0" + sp) == t + "\0"
    ensures Strip(Strip(t + "\0" + sp)) == t
  {
    StripNulThenSpace(t + "\0", sp);
    StripTrailingNul(t);
  }

  /** Whitespace behind a text that starts without whitespace and ends in
      NUL is all that `strip` removes. */
  lemma StripNulThenSpace(tn: string, sp: string)
    requires tn != [] && !IsSpace(tn[0]) && tn[|tn| - 1] == '\0'
    requires sp != [] && forall k :: 0 <= k < |sp| ==> IsSpace(sp[k])
    ensures Strip(tn + sp) == tn
  {
    var x := tn + sp;
    assert x[0] == tn[0];
    assert LStrip(x) == x;
    assert x[|x| - 1] == sp[|sp| - 1];
    assert RNul(x) == x;
    RSpacePadded(tn, sp);
  }

  /** A trailing NUL is removed by `strip` when nothing follows it. */
  lemma StripTrailingNul(t: string)
    requires t == [] || (!IsSpace(t[0]) && !IsSpace(t[|t| - 1]) && t[|t| - 1] != '\0')
    ensures Strip(t + "\0") == t
  {
    var tn := t + "\0";
    assert tn[0] == if t == [] then '\0' else t[0];
    assert LStrip(tn) == tn;
    RNulPadded(t, "\0");
    assert RSpace(t) == t;
  }

  /** `t + "\0 "` strips to a text ending in that NUL. */
  lemma StripNulSpace(t: string)
    requires t == [] || (!IsSpace(t[0]) && !IsSpace(t[|t| - 1]) && t[|t| - 1] != '\0')
    ensures Strip(t + "\0 ") == t + "\0" && (t + "\0")[|t|] == '\0'
  {
    assert t + "\0 " == t + "\0" + " ";
    StripKeepsNulBeforeSpace(t, " ");
  }

  /** Appending a NUL and a space adds no separator that is neither. */
  lemma NulSpaceAppend(t: string, seps: set<char>)
    requires NoneIn(t, seps) && '\0' !in seps && ' ' !in seps
    ensures NoneIn(t + "\0 ", seps)
  {
    var x := t + "\0 ";
    forall i | 0 <= i < |x| ensures x[i] !in seps {
      if i < |t| { assert x[i] == t[i]; }
    }
  }

  /** `lstrip` drops exactly a whitespace prefix in front of text that starts with no whitespace. */
  lemma {:induction false} LStripPadded(ws: string, t: string)
    requires forall k :: 0 <= k < |ws| ==> IsSpace(ws[k])
    requires t == [] || !IsSpace(t[0])
    ensures LStrip(ws + t) == t
  {
    if ws != [] {
      assert (ws + t)[1..] == ws[1..] + t;
      LStripPadded(ws[1..], t);
    }
  }

  /** `RNul` drops exactly a NUL suffix behind text that does not end in NUL. */
  lemma {:induction false} RNulPadded(t: string, nuls: string)
    requires forall k :: 0 <= k < |nuls| ==> nuls[k] == '\0'
    requires t == [] || t[|t| - 1] != '\0'
    ensures RNul(t + nuls) == t
  {
    if nuls != [] {
      var s := t + nuls;
      assert s[|s| - 1] == nuls[|nuls| - 1];
      assert s[..|s| - 1] == t + nuls[..|nuls| - 1];
      RNulPadded(t, nuls[..|nuls| - 1]);
    } else {
      assert t + nuls == t;
    }
  }

  /** `RSpace` drops exactly a whitespace suffix behind text that does not end in whitespace. */
  lemma {:induction false} RSpacePadded(t: string, sp: string)
    requires forall k :: 0 <= k < |sp| ==> IsSpace(sp[k])
    requires t == [] || !IsSpace(t[|t| - 1])
    ensures RSpace(t + sp) == t
  {
    if sp != [] {
      var s := t + sp;
      assert s[|s| - 1] == sp[|sp| - 1];
      assert s[..|s| - 1] == t + sp[..|sp| - 1];
      RSpacePadded(t, sp[..|sp| - 1]);
    } else {
      assert t + sp == t;
    }
  }

  /** The converse of `StripShape`: whitespace in front, and whitespace then
      NUL characters behind, text that `strip` would not shorten is exactly
      what `strip` removes. A text ending in NUL needs some whitespace after
      it, or the first pass of `rstrip` would take its NUL too. */
  lemma StripPadded(ws: string, t: string, sp: string, nuls: string)
    requires forall k :: 0 <= k < |ws| ==> IsSpace(ws[k])
    requires forall k :: 0 <= k < |sp| ==> IsSpace(sp[k])
    requires forall k :: 0 <= k < |nuls| ==> nuls[k] == '\0'
    requires t == [] || (!IsSpace(t[0]) && !IsSpace(t[|t| - 1]) && (sp != [] || t[|t| - 1] != '\0'))
    ensures Strip(ws + t + sp + nuls) == t
  {
    var s := ws + t + sp + nuls;
    if t == [] {
      var pad := ws + sp;
      forall k | 0 <= k < |pad| ensures IsSpace(pad[k]) {
        if k >= |ws| { assert pad[k] == sp[k - |ws|]; }
      }
      assert s == pad + nuls;
      LStripPadded(pad, nuls);
      RNulPadded([], nuls);
      assert [] + nuls == nuls;
    } else {
      assert s == ws + (t + sp + nuls);
      LStripPadded(ws, t + sp + nuls);
      if sp == [] {
        assert t + sp + nuls == t + nuls;
        RNulPadded(t, nuls);
      } else {
        RNulPadded(t + sp, nuls);
      }
      RSpacePadded(t, sp);
    }
  }

  /** The text before the first separator of `a + t`, when `a` has none and `t` starts with one or is empty. */
  lemma {:induction false} UpToPrefix(a: string, t: string, seps: set<char>)
    requires NoneIn(a, seps)
    requires t == [] || t[0] in seps
    ensures UpTo(a + t, seps) == a
  {
    if a != [] {
      assert (a + t)[1..] == a[1..] + t;
      UpToPrefix(a[1..], t, seps);
    } else {
      assert a + t == t;
    }
  }

  /** `Array#join(sep)`. */
  function Join(items: seq<string>, sep: string): (r: string)
  {
    if items == [] then []
    else if |items| == 1 then items[0]
    else items[0] + sep + Join(items[1..], sep)
  }

  /** Appending an item appends it, after one more separator, to the joined text. */
  lemma {:induction false} JoinSnoc(items: seq<string>, x: string, sep: string)
    requires items != []
    ensures Join(items + [x], sep) == Join(items, sep) + sep + x
  {
    if |items| == 1 {
      assert items + [x] == [items[0], x];
    } else {
      JoinSnoc(items[1..], x, sep);
      assert (items + [x])[1..] == items[1..] + [x];
    }
  }

  /** The joined text is the items plus one separator fewer than there are items. */
  lemma {:induction false} JoinLength(items: seq<string>, sep: string)
    ensures |Join(items, sep)| == TotalLength(items) + (if items == [] then 0 else (|items| - 1) * |sep|)
  {
    if |items| > 1 {
      JoinLength(items[1..], sep);
    }
  }

  /** The summed length of the items. */
  function TotalLength(items: seq<string>): (r: nat) {
    if items == [] then 0 else |items[0]| + TotalLength(items[1..])
  }
}
