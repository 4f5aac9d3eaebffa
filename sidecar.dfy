/** The line-oriented `KEY=VALUE` text of a `.meta` sidecar, and the two regular
    expression operations the uploader applies to it: `re.findall(KEY + '(.*)', t)`
    and `re.sub(KEY + '.*', KEY + v, t)`. The pattern is not anchored to the start
    of a line, and `.*` stops at the first newline, exactly as in Python. */
module Sidecar {

  const ImageKey := "IMAGE="
  const ParentKey := "PUUID="

  /** What `.*` matches at the start of t: every character before the first newline. */
  function Line(t: string): (r: string)
    ensures |r| <= |t| && r == t[..|r|]
    ensures forall k :: 0 <= k < |r| ==> r[k] != '\n'
    ensures |r| < |t| ==> t[|r|] == '\n'
  {
    if t == [] || t[0] == '\n' then [] else [t[0]] + Line(t[1..])
  }

  /** key occurs at the very start of t. */
  predicate At(t: string, key: string) {
    |key| <= |t| && t[..|key|] == key
  }

  /** re.findall(key + '(.*)', t): the captured values, left to right, without overlap. */
  function FindAll(t: string, key: string): seq<string>
    requires key != []
    decreases |t|
  {
    if At(t, key) then
      var rest := t[|key|..];
      [Line(rest)] + FindAll(rest[|Line(rest)|..], key)
    else if t == [] then []
    else FindAll(t[1..], key)
  }

  /** re.sub(key + '.*', key + v, t): every match, with the rest of its line, replaced. */
  function Sub(t: string, key: string, v: string): string
    requires key != []
    decreases |t|
  {
    if At(t, key) then
      var rest := t[|key|..];
      key + v + Sub(rest[|Line(rest)|..], key, v)
    else if t == [] then []
    else [t[0]] + Sub(t[1..], key, v)
  }

  function Repeat(v: string, n: nat): (r: seq<string>)
    ensures |r| == n && forall k :: 0 <= k < n ==> r[k] == v
  {
    if n == 0 then [] else [v] + Repeat(v, n - 1)
  }

  /** A text shorter than the key has no match and is left as it is. */
  lemma {:induction false} SubShort(t: string, key: string, v: string)
    requires key != [] && |t| < |key|
    ensures Sub(t, key, v) == t
    decreases |t|
  {
    if t != [] {
      SubShort(t[1..], key, v);
    }
  }

  /** Substitution never changes the first |key| characters of the text. */
  lemma {:induction false} SubPrefix(t: string, key: string, v: string, n: nat)
    requires key != [] && n <= |key| && n <= |t|
    ensures n <= |Sub(t, key, v)| && Sub(t, key, v)[..n] == t[..n]
    decreases |t|
  {
    if At(t, key) {
      var rest := t[|key|..];
      var u := key + v + Sub(rest[|Line(rest)|..], key, v);
      assert Sub(t, key, v) == u;
      assert u[..n] == key[..n];
      assert t[..n] == key[..n];
    } else if n > 0 {
      SubPrefix(t[1..], key, v, n - 1);
      var u := Sub(t[1..], key, v);
      assert Sub(t, key, v) == [t[0]] + u;
      TakeCons(t[0], u, n);
      TakeCons(t[0], t[1..], n);
      assert [t[0]] + t[1..] == t;
    }
  }

  /** The first n characters of c followed by u. */
  lemma TakeCons(c: char, u: string, n: nat)
    requires 1 <= n <= |u| + 1
    ensures ([c] + u)[..n] == [c] + u[..n - 1]
  {
  }

  lemma {:induction false} LineOfValue(v: string, s: string)
    requires forall k :: 0 <= k < |v| ==> v[k] != '\n'
    requires s == [] || s[0] == '\n'
    ensures Line(v + s) == v
    decreases |v|
  {
    if v == [] {
      assert v + s == s;
    } else {
      var t := v + s;
      assert t[0] == v[0] && t[0] != '\n';
      assert t[1..] == v[1..] + s;
      LineOfValue(v[1..], s);
      assert v == [v[0]] + v[1..];
    }
  }

  /** After the substitution, every occurrence of the key carries the new value,
      and the number of occurrences is unchanged. */
  lemma {:induction false} FindAllAfterSub(t: string, key: string, v: string)
    requires key != []
    requires forall k :: 0 <= k < |v| ==> v[k] != '\n'
    ensures FindAll(Sub(t, key, v), key) == Repeat(v, |FindAll(t, key)|)
    decreases |t|
  {
    if At(t, key) {
      var rest := t[|key|..];
      var tail := rest[|Line(rest)|..];
      FindAllAfterSub(tail, key, v);
      SubAtMatch(t, key, v);
      assert FindAll(t, key) == [Line(rest)] + FindAll(tail, key);
    } else if t != [] {
      FindAllAfterSub(t[1..], key, v);
      SubNoMatch(t, key, v);
    }
  }

  /** At a match, the substituted text starts with the key and the new value,
      and the rest is the substitution of what follows the matched line. */
  lemma SubAtMatch(t: string, key: string, v: string)
    requires key != [] && At(t, key)
    requires forall k :: 0 <= k < |v| ==> v[k] != '\n'
    ensures var rest := t[|key|..];
      FindAll(Sub(t, key, v), key) == [v] + FindAll(Sub(rest[|Line(rest)|..], key, v), key)
  {
    var rest := t[|key|..];
    var tail := rest[|Line(rest)|..];
    var s := Sub(tail, key, v);
    assert Sub(t, key, v) == key + v + s;
    if tail != [] {
      SubPrefix(tail, key, v, 1);
      assert s[0] == s[..1][0];
    }
    FindAllOfValue(key, v, s);
  }

  /** A match of the key followed by the value and then a line break or the end. */
  lemma FindAllOfValue(key: string, v: string, s: string)
    requires key != []
    requires forall k :: 0 <= k < |v| ==> v[k] != '\n'
    requires s == [] || s[0] == '\n'
    ensures FindAll(key + v + s, key) == [v] + FindAll(s, key)
  {
    var r := key + v + s;
    LineOfValue(v, s);
    assert At(r, key) by { assert r[..|key|] == key; }
    assert r[|key|..] == v + s;
    assert (v + s)[|v|..] == s;
  }

  /** Where the text does not start with a match, neither does its substitution,
      which keeps the first character. */
  lemma SubNoMatch(t: string, key: string, v: string)
    requires key != [] && !At(t, key) && t != []
    ensures FindAll(Sub(t, key, v), key) == FindAll(Sub(t[1..], key, v), key)
  {
    var s' := Sub(t[1..], key, v);
    assert Sub(t, key, v) == [t[0]] + s';
    if |t| >= |key| {
      SubPrefix(t, key, v, |key|);
    } else {
      SubShort(t, key, v);
    }
    assert !At(Sub(t, key, v), key);
    assert ([t[0]] + s')[1..] == s';
  }

  /** The number of line breaks in t. */
  function Newlines(t: string): nat
    decreases |t|
  {
    if t == [] then 0 else (if t[0] == '\n' then 1 else 0) + Newlines(t[1..])
  }

  lemma {:induction false} NewlinesAppend(a: string, b: string)
    ensures Newlines(a + b) == Newlines(a) + Newlines(b)
    decreases |a|
  {
    if a == [] {
      assert a + b == b;
    } else {
      assert (a + b)[1..] == a[1..] + b;
      NewlinesAppend(a[1..], b);
    }
  }

  lemma {:induction false} NoNewlines(a: string)
    requires forall k :: 0 <= k < |a| ==> a[k] != '\n'
    ensures Newlines(a) == 0
    decreases |a|
  {
    if a != [] {
      NoNewlines(a[1..]);
    }
  }

  /** With a key and a value free of line breaks, the substitution adds and
      removes no line: each match is replaced within its own line. */
  lemma {:induction false} SubKeepsLines(t: string, key: string, v: string)
    requires key != []
    requires forall k :: 0 <= k < |key| ==> key[k] != '\n'
    requires forall k :: 0 <= k < |v| ==> v[k] != '\n'
    ensures Newlines(Sub(t, key, v)) == Newlines(t)
    decreases |t|
  {
    if At(t, key) {
      var rest := t[|key|..];
      var line := Line(rest);
      var tail := rest[|line|..];
      SubKeepsLines(tail, key, v);
      assert t == key + line + tail;
      NewlinesAppend(key + line, tail);
      NewlinesAppend(key, line);
      NoNewlines(key);
      NoNewlines(line);
      NoNewlines(v);
      NewlinesAppend(key + v, Sub(tail, key, v));
      NewlinesAppend(key, v);
    } else if t != [] {
      SubKeepsLines(t[1..], key, v);
      var u := Sub(t[1..], key, v);
      assert Sub(t, key, v) == [t[0]] + u;
      assert ([t[0]] + u)[1..] == u;
    }
  }

  /** A text in which the key never occurs is left unchanged. */
  lemma {:induction false} SubWithoutMatch(t: string, key: string, v: string)
    requires key != [] && FindAll(t, key) == []
    ensures Sub(t, key, v) == t
    decreases |t|
  {
    if !At(t, key) && t != [] {
      SubWithoutMatch(t[1..], key, v);
    }
  }
}
