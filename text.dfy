/** The string primitives the program takes from Go's `strings` package, as functions over
    `string` (a sequence of Unicode scalar values): `ToLower` (ASCII letters only), `Contains`,
    `Split` and `Join` with a one-character separator, `SplitN(v, "/", 2)[0]` and `Fields`. */
module Text {

  /** Go's `unicode.IsSpace`: the Unicode White_Space characters. */
  predicate IsSpace(c: char) {
    var n := c as int;
    (9 <= n <= 13) || n == 0x20 || n == 0x85 || n == 0xA0 || n == 0x1680
    || (0x2000 <= n <= 0x200A) || n == 0x2028 || n == 0x2029 || n == 0x202F
    || n == 0x205F || n == 0x3000
  }

  predicate IsAsciiUpper(c: char) {
    'A' <= c <= 'Z'
  }

  function LowerChar(c: char): (r: char)
    ensures !IsAsciiUpper(r)
  {
    if IsAsciiUpper(c) then (c as int + 32) as char else c
  }

  /** `strings.ToLower`, restricted to the ASCII letters. */
  function Lower(s: string): (r: string)
    ensures |r| == |s|
    ensures forall i :: 0 <= i < |s| ==> !IsAsciiUpper(r[i])
    ensures forall i :: 0 <= i < |s| ==>
      r[i] == s[i] || (IsAsciiUpper(s[i]) && r[i] as int == s[i] as int + 32)
  {
    seq(|s|, i requires 0 <= i < |s| => LowerChar(s[i]))
  }

  /** `sub` occurs in `s` starting at offset `i`. */
  predicate OccursAt(s: string, sub: string, i: int) {
    0 <= i <= |s| - |sub| && s[i..i + |sub|] == sub
  }

  /** `strings.Contains(s, sub)`: `sub` occurs in `s` at some offset. */
  predicate Contains(s: string, sub: string)
    ensures Contains(s, sub) ==> |sub| <= |s|
  {
    exists i | 0 <= i <= |s| - |sub| :: OccursAt(s, sub, i)
  }

  /** The empty string occurs in every string. */
  lemma ContainsEmpty(s: string)
    ensures Contains(s, "")
  {
    assert OccursAt(s, "", 0);
  }

  /** Every string occurs in itself. */
  lemma ContainsSelf(s: string)
    ensures Contains(s, s)
  {
    assert OccursAt(s, s, 0);
  }

  /** `strings.Join(parts, string(sep))`. */
  function Join(parts: seq<string>, sep: char): (s: string)
    ensures |parts| == 0 ==> s == ""
    ensures |parts| > 0 ==> parts[0] <= s
    decreases |parts|
  {
    if |parts| == 0 then ""
    else if |parts| == 1 then parts[0]
    else parts[0] + [sep] + Join(parts[1..], sep)
  }

  /** `strings.Split(s, string(sep))`: the pieces between separators, at least one, none holding
      the separator, and joined back they give `s`. */
  function Split(s: string, sep: char): (parts: seq<string>)
    ensures |parts| >= 1
    ensures forall p :: p in parts ==> sep !in p
    ensures Join(parts, sep) == s
  {
    if s == [] then [""]
    else
      var rest := Split(s[1..], sep);
      if s[0] == sep then [""] + rest
      else
        var parts := [[s[0]] + rest[0]] + rest[1..];
        assert parts[1..] == rest[1..];
        parts
  }

  /** A string without the separator splits into itself alone. */
  lemma {:induction false} SplitWithoutSeparator(s: string, sep: char)
    requires sep !in s
    ensures Split(s, sep) == [s]
  {
    if s != [] {
      SplitWithoutSeparator(s[1..], sep);
    }
  }

  /** A separator-free first piece is split off exactly. */
  lemma {:induction false} SplitAfterPiece(p: string, sep: char, t: string)
    requires sep !in p
    ensures Split(p + [sep] + t, sep) == [p] + Split(t, sep)
  {
    if p == [] {
      assert ([sep] + t)[1..] == t;
    } else {
      assert (p + [sep] + t)[1..] == p[1..] + [sep] + t;
      SplitAfterPiece(p[1..], sep, t);
      assert [p[0]] + p[1..] == p;
    }
  }

  /** Split undoes Join when no piece holds the separator. */
  lemma {:induction false} SplitJoin(parts: seq<string>, sep: char)
    requires |parts| >= 1
    requires forall p :: p in parts ==> sep !in p
    ensures Split(Join(parts, sep), sep) == parts
  {
    if |parts| == 1 {
      SplitWithoutSeparator(parts[0], sep);
    } else {
      SplitAfterPiece(parts[0], sep, Join(parts[1..], sep));
      SplitJoin(parts[1..], sep);
      assert [parts[0]] + parts[1..] == parts;
    }
  }

  /** `strings.SplitN(v, "/", 2)[0]`: the longest prefix of `v` without a '/'. */
  function ReplicaPrefix(v: string): (r: string)
    ensures '/' !in r
    ensures r <= v
    ensures |r| < |v| ==> v[|r|] == '/'
  {
    if v == [] || v[0] == '/' then [] else [v[0]] + ReplicaPrefix(v[1..])
  }

  /** The prefix is the first piece that Split gives. */
  lemma {:induction false} ReplicaPrefixIsFirstPiece(v: string)
    ensures ReplicaPrefix(v) == Split(v, '/')[0]
  {
    if v != [] && v[0] != '/' {
      ReplicaPrefixIsFirstPiece(v[1..]);
    }
  }

  /** A value without '/' passes through unchanged. */
  lemma ReplicaPrefixWithoutSlash(v: string)
    requires '/' !in v
    ensures ReplicaPrefix(v) == v
  {
  }

  /** A compound "running/desired" value keeps its first component. */
  lemma ReplicaPrefixOfCompound(running: string, desired: string)
    requires '/' !in running
    ensures ReplicaPrefix(running + "/" + desired) == running
  {
    var v := running + "/" + desired;
    assert v[|running|] == '/';
  }

  /** The maximal run of non-space characters at the start of `s`. */
  function Word(s: string): (w: string)
    ensures w <= s
    ensures forall c :: c in w ==> !IsSpace(c)
    ensures |w| < |s| ==> IsSpace(s[|w|])
  {
    if s == [] || IsSpace(s[0]) then [] else [s[0]] + Word(s[1..])
  }

  /** A non-empty run of non-space characters. */
  predicate IsField(f: string) {
    f != [] && forall c :: c in f ==> !IsSpace(c)
  }

  /** `strings.Fields(s)`: the maximal runs of non-space characters, in order. */
  function Fields(s: string): (fields: seq<string>)
    ensures forall f :: f in fields ==> IsField(f)
    decreases |s|
  {
    if s == [] then []
    else if IsSpace(s[0]) then Fields(s[1..])
    else
      var w := Word(s);
      [w] + Fields(s[|w|..])
  }

  /** A space-free word followed by a space (or nothing) is read whole. */
  lemma {:induction false} WordOf(w: string, t: string)
    requires forall c :: c in w ==> !IsSpace(c)
    requires t == [] || IsSpace(t[0])
    ensures Word(w + t) == w
  {
    if w != [] {
      assert (w + t)[1..] == w[1..] + t;
      WordOf(w[1..], t);
    } else {
      assert w + t == t;
    }
  }

  /** Fields undoes a Join with single spaces when every field is non-empty and space-free. */
  lemma {:induction false} FieldsJoin(fields: seq<string>)
    requires forall f :: f in fields ==> IsField(f)
    ensures Fields(Join(fields, ' ')) == fields
  {
    if |fields| > 0 {
      assert IsField(fields[0]);
    }
    if |fields| == 1 {
      var f := fields[0];
      WordOf(f, []);
      assert f + [] == f;
      assert f[|f|..] == [];
    } else if |fields| > 1 {
      var f := fields[0];
      var rest := Join(fields[1..], ' ');
      var s := f + [' '] + rest;
      WordOf(f, [' '] + rest);
      assert s == f + ([' '] + rest);
      assert s[|f|..] == [' '] + rest;
      assert ([' '] + rest)[1..] == rest;
      assert forall f :: f in fields[1..] ==> f in fields;
      FieldsJoin(fields[1..]);
      assert [f] + fields[1..] == fields;
    }
  }

  /** Word stops at the same place when the text after `p` starts with white space, or when `p`
      already holds white space after its first word. */
  lemma {:induction false} WordPrefix(p: string, q: string)
    requires |Word(p)| < |p| || q == [] || IsSpace(q[0])
    ensures Word(p + q) == Word(p)
    decreases |p|
  {
    if p == [] {
      assert p + q == q;
    } else if !IsSpace(p[0]) {
      assert (p + q)[1..] == p[1..] + q;
      WordPrefix(p[1..], q);
    }
  }

  /** A string of white space has no fields. */
  lemma {:induction false} FieldsOfSpaces(ws: string)
    requires forall c :: c in ws ==> IsSpace(c)
    ensures Fields(ws) == []
    decreases |ws|
  {
    if ws != [] {
      assert ws[0] in ws;
      assert forall c :: c in ws[1..] ==> c in ws;
      FieldsOfSpaces(ws[1..]);
    }
  }

  /** Cutting a string at white space splits its fields there: the fields of `p + q` are those
      of `p` followed by those of `q` when `p` ends, or `q` starts, with white space. */
  lemma {:induction false} FieldsAppend(p: string, q: string)
    requires p == [] || q == [] || IsSpace(p[|p| - 1]) || IsSpace(q[0])
    ensures Fields(p + q) == Fields(p) + Fields(q)
    decreases |p|
  {
    if p == [] {
      assert p + q == q;
    } else if IsSpace(p[0]) {
      FieldsAtSpace(p);
      FieldsAtSpace(p + q);
      DropAppend(p, q, 1);
      if |p| > 1 {
        LastOfDrop(p, 1);
      }
      FieldsAppend(p[1..], q);
    } else {
      var w := Word(p);
      var rest := p[|w|..];
      FieldsAfterWord(p, q, w, rest);
      FieldsAppend(rest, q);
    }
  }

  lemma FieldsAtSpace(s: string)
    requires s != [] && IsSpace(s[0])
    ensures Fields(s) == Fields(s[1..])
  {
  }

  lemma FieldsAtWord(s: string)
    requires s != [] && !IsSpace(s[0])
    ensures Fields(s) == [Word(s)] + Fields(s[|Word(s)|..])
  {
  }

  /** The first field of a line that starts with a non-space character is its first word `w`,
      both before and after appending text at white space; the rest of the line still meets
      the appended text at white space. */
  lemma FieldsAfterWord(p: string, q: string, w: string, rest: string)
    requires p != [] && !IsSpace(p[0])
    requires q == [] || IsSpace(p[|p| - 1]) || IsSpace(q[0])
    requires w == Word(p) && rest == p[|w|..]
    ensures |rest| < |p|
    ensures Fields(p) == [w] + Fields(rest)
    ensures Fields(p + q) == [w] + Fields(rest + q)
    ensures rest == [] || q == [] || IsSpace(rest[|rest| - 1]) || IsSpace(q[0])
  {
    WordStopsBeforeEnd(p, q);
    WordPrefix(p, q);
    FieldsAtWord(p);
    FieldsAtWord(p + q);
    DropAppend(p, q, |w|);
    if |w| < |p| {
      LastOfDrop(p, |w|);
    }
  }

  lemma DropAppend(p: string, q: string, n: nat)
    requires n <= |p|
    ensures (p + q)[n..] == p[n..] + q
  {
  }

  lemma LastOfDrop(p: string, n: nat)
    requires n < |p|
    ensures p[n..][|p| - n - 1] == p[|p| - 1]
  {
  }

  /** A word that runs to the end of `p` ends with a non-space character. */
  lemma WordStopsBeforeEnd(p: string, q: string)
    requires p != [] && !IsSpace(p[0])
    requires q == [] || IsSpace(p[|p| - 1]) || IsSpace(q[0])
    ensures |Word(p)| < |p| || q == [] || IsSpace(q[0])
  {
    var w := Word(p);
    if |w| == |p| {
      assert w == p;
      assert p[|p| - 1] in w;
    }
  }

  /** A backup line reads as its name and replicas whatever white space separates them. */
  lemma FieldsOfPair(name: string, ws: string, replicas: string)
    requires IsField(name) && IsField(replicas)
    requires ws != [] && forall c :: c in ws ==> IsSpace(c)
    ensures Fields(name + ws + replicas) == [name, replicas]
  {
    var a := name + ws;
    assert ws[0] in ws && a[|a| - 1] == ws[|ws| - 1] && ws[|ws| - 1] in ws;
    FieldsJoin([name]);
    FieldsJoin([replicas]);
    FieldsOfSpaces(ws);
    FieldsAppend(name, ws);
    assert Fields(a) == [name];
    FieldsAppend(a, replicas);
  }
}
