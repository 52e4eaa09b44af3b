/**
 * The name tokeniser of the event emitter: `resolveNames` turns a name
 * pattern such as "a b.ns,c/d" into tokens, and `resolveName` splits one
 * token into its event name (value) and namespace.
 */
module Names {

  /** The namespace a token gets when it names none. */
  const Base: string := "base"

  /** The characters that survive the sanitising step: letters, digits, space, ',', '/' and '.'. */
  predicate IsKept(c: char) {
    ('a' <= c <= 'z') || ('A' <= c <= 'Z') || ('0' <= c <= '9') || c == ' ' || c == ',' || c == '/' || c == '.'
  }

  /** The characters of which a run is collapsed into one space. */
  predicate IsSeparator(c: char) {
    c == ',' || c == '/'
  }

  /** The characters a resolved token can hold. */
  predicate IsTokenChar(c: char) {
    IsKept(c) && !IsSeparator(c) && c != ' '
  }

  predicate AllKept(s: string) {
    forall i :: 0 <= i < |s| ==> IsKept(s[i])
  }

  predicate IsToken(t: string) {
    forall j :: 0 <= j < |t| ==> IsTokenChar(t[j])
  }

  predicate NoSeparator(s: string) {
    forall i :: 0 <= i < |s| ==> !IsSeparator(s[i])
  }

  /** Step one of resolveNames: delete every character that is not kept. */
  function Sanitize(s: string): (r: string)
    ensures |r| <= |s|
    ensures AllKept(r)
  {
    if s == [] then []
    else (if IsKept(s[0]) then [s[0]] else []) + Sanitize(s[1..])
  }

  /** Sanitising works character by character: it distributes over concatenation. */
  lemma {:induction false} SanitizeAppend(a: string, b: string)
    ensures Sanitize(a + b) == Sanitize(a) + Sanitize(b)
  {
    if a == [] {
      assert a + b == b;
    } else {
      assert (a + b)[0] == a[0] && (a + b)[1..] == a[1..] + b;
      SanitizeAppend(a[1..], b);
    }
  }

  /** A string made only of kept characters is left as it is. */
  lemma {:induction false} SanitizeKeepsClean(s: string)
    requires AllKept(s)
    ensures Sanitize(s) == s
  {
    if s != [] {
      SanitizeKeepsClean(s[1..]);
    }
  }

  /** Every kept character survives as often as it occurs; every other character disappears. */
  lemma {:induction false} SanitizeCounts(s: string, c: char)
    ensures multiset(Sanitize(s))[c] == if IsKept(c) then multiset(s)[c] else 0
  {
    if s != [] {
      SanitizeCounts(s[1..], c);
      assert s == [s[0]] + s[1..];
    }
  }

  /** The rest of `s` after its leading run of separators. */
  function DropSeparators(s: string): (r: string)
    ensures |r| <= |s|
    ensures r == [] || !IsSeparator(r[0])
  {
    if s != [] && IsSeparator(s[0]) then DropSeparators(s[1..]) else s
  }

  lemma {:induction false} DropSeparatorsKeepsKept(s: string)
    requires AllKept(s)
    ensures AllKept(DropSeparators(s))
  {
    if s != [] && IsSeparator(s[0]) {
      DropSeparatorsKeepsKept(s[1..]);
    }
  }

  /** Step two of resolveNames: replace each maximal run of ',' and '/' by one space. */
  function Collapse(s: string): (r: string)
    ensures |r| <= |s|
    ensures NoSeparator(r)
    decreases |s|
  {
    if s == [] then []
    else if IsSeparator(s[0]) then " " + Collapse(DropSeparators(s[1..]))
    else [s[0]] + Collapse(s[1..])
  }

  lemma {:induction false} CollapseKeepsKept(s: string)
    requires AllKept(s)
    ensures AllKept(Collapse(s))
    decreases |s|
  {
    if s != [] {
      if IsSeparator(s[0]) {
        DropSeparatorsKeepsKept(s[1..]);
        CollapseKeepsKept(DropSeparators(s[1..]));
      } else {
        CollapseKeepsKept(s[1..]);
      }
    }
  }

  /** A string without separators is not changed by collapsing. */
  lemma {:induction false} CollapseKeepsPlain(s: string)
    requires NoSeparator(s)
    ensures Collapse(s) == s
  {
    if s != [] {
      CollapseKeepsPlain(s[1..]);
    }
  }

  lemma {:induction false} DropSeparatorsAppend(a: string, x: string)
    requires DropSeparators(a) != []
    ensures DropSeparators(a + x) == DropSeparators(a) + x
    decreases |a|
  {
    if IsSeparator(a[0]) {
      assert (a + x)[1..] == a[1..] + x;
      DropSeparatorsAppend(a[1..], x);
    }
  }

  lemma SliceAppend(a: string, x: string)
    requires a != []
    ensures (a + x)[1..] == a[1..] + x
  {
  }

  lemma {:induction false} DropSeparatorsKeepsLast(x: string)
    requires x != [] && !IsSeparator(x[|x| - 1])
    ensures DropSeparators(x) != [] && DropSeparators(x)[|DropSeparators(x)| - 1] == x[|x| - 1]
  {
    if IsSeparator(x[0]) {
      DropSeparatorsKeepsLast(x[1..]);
    }
  }

  lemma {:induction false} DropSeparatorsRun(run: string, b: string)
    requires NoSeparator(b[..if b == [] then 0 else 1])
    requires forall i :: 0 <= i < |run| ==> IsSeparator(run[i])
    ensures DropSeparators(run + b) == b
    decreases |run|
  {
    if run == [] {
      assert run + b == b;
      if b != [] {
        assert !IsSeparator(b[..1][0]);
      }
    } else {
      assert (run + b)[1..] == run[1..] + b;
      DropSeparatorsRun(run[1..], b);
    }
  }

  /**
   * Each maximal run of separators between `a` and `b` becomes exactly one
   * space, and collapsing the two sides happens independently.
   */
  lemma {:induction false} CollapseRun(a: string, run: string, b: string)
    requires a == [] || !IsSeparator(a[|a| - 1])
    requires run != [] && forall i :: 0 <= i < |run| ==> IsSeparator(run[i])
    requires b == [] || !IsSeparator(b[0])
    ensures Collapse(a + run + b) == Collapse(a) + " " + Collapse(b)
    decreases |a|, 1
  {
    if a == [] {
      CollapseRunAlone(run, b);
      assert a + run + b == run + b;
      assert Collapse(a) + " " == " ";
    } else if IsSeparator(a[0]) {
      CollapseRunAfterSeparator(a, run, b);
    } else {
      CollapseRunAfterChar(a, run, b);
    }
  }

  lemma {:induction false} CollapseRunAfterSeparator(a: string, run: string, b: string)
    requires a != [] && IsSeparator(a[0]) && !IsSeparator(a[|a| - 1])
    requires run != [] && forall i :: 0 <= i < |run| ==> IsSeparator(run[i])
    requires b == [] || !IsSeparator(b[0])
    ensures Collapse(a + run + b) == Collapse(a) + " " + Collapse(b)
    decreases |a|, 0
  {
    assert a[1..] != [] && a[1..][|a| - 2] == a[|a| - 1];
    var t := DropSeparators(a[1..]);
    DropSeparatorsKeepsLast(a[1..]);
    CollapseRun(t, run, b);
    var rest := run + b;
    assert a + run + b == a + rest;
    assert t + run + b == t + rest;
    calc {
      Collapse(a + rest);
      { SliceAppend(a, rest); }
      " " + Collapse(DropSeparators(a[1..] + rest));
      { DropSeparatorsAppend(a[1..], rest); }
      " " + Collapse(t + rest);
      " " + (Collapse(t) + " " + Collapse(b));
    }
    assert Collapse(a) == " " + Collapse(t);
    ConcatAssoc(" ", Collapse(t), Collapse(b));
  }

  lemma ConcatAssoc(x: string, y: string, z: string)
    ensures x + (y + " " + z) == (x + y) + " " + z
  {
  }

  lemma {:induction false} CollapseRunAfterChar(a: string, run: string, b: string)
    requires a != [] && !IsSeparator(a[0]) && !IsSeparator(a[|a| - 1])
    requires run != [] && forall i :: 0 <= i < |run| ==> IsSeparator(run[i])
    requires b == [] || !IsSeparator(b[0])
    ensures Collapse(a + run + b) == Collapse(a) + " " + Collapse(b)
    decreases |a|, 0
  {
    assert a[1..] == [] || a[1..][|a[1..]| - 1] == a[|a| - 1];
    CollapseRun(a[1..], run, b);
    var rest := run + b;
    assert a + run + b == a + rest;
    assert a[1..] + run + b == a[1..] + rest;
    calc {
      Collapse(a + rest);
      { SliceAppend(a, rest); assert (a + rest)[0] == a[0]; }
      [a[0]] + Collapse(a[1..] + rest);
      [a[0]] + (Collapse(a[1..]) + " " + Collapse(b));
      { assert Collapse(a) == [a[0]] + Collapse(a[1..]); }
      Collapse(a) + " " + Collapse(b);
    }
  }

  lemma CollapseRunAlone(run: string, b: string)
    requires run != [] && forall i :: 0 <= i < |run| ==> IsSeparator(run[i])
    requires b == [] || !IsSeparator(b[0])
    ensures Collapse(run + b) == " " + Collapse(b)
  {
    assert (run + b)[1..] == run[1..] + b;
    var nb := b[..if b == [] then 0 else 1];
    assert NoSeparator(nb);
    DropSeparatorsRun(run[1..], b);
  }

  /** JavaScript's `String.prototype.split` with a one-character separator. */
  function Split(s: string, sep: char): (r: seq<string>)
    ensures |r| >= 1
    ensures forall i :: 0 <= i < |r| ==> sep !in r[i]
  {
    if s == [] then [""]
    else
      var rest := Split(s[1..], sep);
      if s[0] == sep then [""] + rest
      else [[s[0]] + rest[0]] + rest[1..]
  }

  /** The first piece is the text before the first separator. */
  lemma {:induction false} SplitHead(s: string, sep: char)
    ensures Split(s, sep)[0] <= s
    ensures |Split(s, sep)[0]| == |s| || s[|Split(s, sep)[0]|] == sep
  {
    if s != [] {
      SplitHead(s[1..], sep);
    }
  }

  /** Splitting a string of token characters and spaces on ' ' gives tokens. */
  lemma {:induction false} SplitIntoTokens(s: string)
    requires AllKept(s) && NoSeparator(s)
    ensures forall i :: 0 <= i < |Split(s, ' ')| ==> IsToken(Split(s, ' ')[i])
  {
    if s != [] {
      SplitIntoTokens(s[1..]);
      var rest := Split(s[1..], ' ');
      if s[0] != ' ' {
        assert IsToken(rest[0]);
        assert IsTokenChar(s[0]);
        assert IsToken([s[0]] + rest[0]);
      }
    }
  }

  /** JavaScript's `Array.prototype.join` with a one-character separator, for a non-empty list. */
  function Join(parts: seq<string>, sep: char): string
    requires |parts| >= 1
  {
    if |parts| == 1 then parts[0] else parts[0] + [sep] + Join(parts[1..], sep)
  }

  /** Splitting loses nothing: joining the pieces gives the string back. */
  lemma {:induction false} SplitThenJoin(s: string, sep: char)
    ensures Join(Split(s, sep), sep) == s
  {
    if s != [] {
      var rest := Split(s[1..], sep);
      SplitThenJoin(s[1..], sep);
      if s[0] == sep {
        assert ([""] + rest)[1..] == rest;
      } else {
        var r := [[s[0]] + rest[0]] + rest[1..];
        if |rest| > 1 {
          assert r[1..] == rest[1..];
        }
      }
    }
  }

  lemma {:induction false} SplitAfter(a: string, x: string, sep: char)
    requires sep !in a
    ensures Split(a + x, sep) == [a + Split(x, sep)[0]] + Split(x, sep)[1..]
  {
    if a == [] {
      var r := Split(x, sep);
      assert a + x == x;
      assert a + r[0] == r[0];
      assert r == [r[0]] + r[1..];
    } else {
      assert (a + x)[1..] == a[1..] + x;
      SplitAfter(a[1..], x, sep);
      assert [a[0]] + (a[1..] + Split(x, sep)[0]) == a + Split(x, sep)[0];
    }
  }

  /** Joining pieces that do not hold the separator and splitting again gives the pieces back. */
  lemma {:induction false} JoinThenSplit(parts: seq<string>, sep: char)
    requires |parts| >= 1
    requires forall i :: 0 <= i < |parts| ==> sep !in parts[i]
    ensures Split(Join(parts, sep), sep) == parts
  {
    if |parts| == 1 {
      SplitAfter(parts[0], "", sep);
      assert parts[0] + "" == parts[0];
    } else {
      var tail := Join(parts[1..], sep);
      JoinThenSplit(parts[1..], sep);
      assert parts[0] + [sep] + tail == parts[0] + ([sep] + tail);
      SplitAfter(parts[0], [sep] + tail, sep);
      assert ([sep] + tail)[1..] == tail;
      assert parts[0] + "" == parts[0];
      assert parts == [parts[0]] + parts[1..];
    }
  }

  /** The tokens of a name pattern: sanitise, collapse separator runs, split on single spaces. */
  function ResolveNames(names: string): (r: seq<string>)
    ensures |r| >= 1
    ensures forall i :: 0 <= i < |r| ==> IsToken(r[i])
  {
    var collapsed := Collapse(Sanitize(names));
    CollapseKeepsKept(Sanitize(names));
    SplitIntoTokens(collapsed);
    Split(collapsed, ' ')
  }

  /** A pattern written as clean tokens separated by single spaces resolves to exactly those tokens. */
  lemma ResolveCleanTokens(tokens: seq<string>)
    requires |tokens| >= 1
    requires forall i :: 0 <= i < |tokens| ==> IsToken(tokens[i])
    ensures ResolveNames(Join(tokens, ' ')) == tokens
  {
    var s := Join(tokens, ' ');
    JoinClean(tokens);
    SanitizeKeepsClean(s);
    CollapseKeepsPlain(s);
    JoinThenSplit(tokens, ' ');
  }

  lemma {:induction false} JoinClean(tokens: seq<string>)
    requires |tokens| >= 1
    requires forall i :: 0 <= i < |tokens| ==> IsToken(tokens[i])
    ensures AllKept(Join(tokens, ' ')) && NoSeparator(Join(tokens, ' '))
  {
    if |tokens| > 1 {
      JoinClean(tokens[1..]);
    }
  }

  /** A token split at its dots: `value` before the first dot and the namespace. */
  datatype Name = Name(original: string, value: string, namespace: string)

  /**
   * The value is the text before the first '.', the namespace the second
   * '.'-segment when it is non-empty and "base" otherwise.
   */
  function ResolveName(name: string): (n: Name)
    ensures n.original == name
    ensures n.namespace != ""
    ensures '.' !in n.value && '.' !in n.namespace
    ensures n.value <= name
    ensures |n.value| == |name| || name[|n.value|] == '.'
  {
    var parts := Split(name, '.');
    SplitHead(name, '.');
    Name(name, parts[0], if |parts| > 1 && parts[1] != "" then parts[1] else Base)
  }

  /** A token without a dot is an event name in the base namespace. */
  lemma ResolvePlainName(v: string)
    requires '.' !in v
    ensures ResolveName(v) == Name(v, v, Base)
  {
    SplitAfter(v, "", '.');
    assert v + "" == v;
  }

  /** "v.ns" and "v.ns.anything" both name event v in namespace ns: later segments are ignored. */
  lemma ResolveQualifiedName(v: string, ns: string, rest: string)
    requires '.' !in v && '.' !in ns && ns != ""
    requires rest == [] || rest[0] == '.'
    ensures ResolveName(v + "." + ns + rest) == Name(v + "." + ns + rest, v, ns)
  {
    var s := v + "." + ns + rest;
    assert s == v + ("." + (ns + rest));
    SplitAfter(v, "." + (ns + rest), '.');
    assert ("." + (ns + rest))[1..] == ns + rest;
    SplitAfter(ns, rest, '.');
    if rest != [] {
      assert rest[1..] == rest[1..];
      assert Split(rest, '.')[0] == "";
    }
    assert ns + "" == ns;
    assert v + "" == v;
  }

  /** "v." and "v..x" have an empty second segment, so they fall back to the base namespace. */
  lemma ResolveEmptyNamespace(v: string, rest: string)
    requires '.' !in v
    requires rest == [] || rest[0] == '.'
    ensures ResolveName(v + "." + rest) == Name(v + "." + rest, v, Base)
  {
    var s := v + "." + rest;
    assert s == v + ("." + rest);
    SplitAfter(v, "." + rest, '.');
    assert ("." + rest)[1..] == rest;
    if rest != [] {
      assert Split(rest, '.')[0] == "";
    }
    assert v + "" == v;
  }

  /** The separator handling of the pattern "a, b": the comma and the space give an empty middle token. */
  lemma ResolveNamesCommaSpace()
    ensures ResolveNames("a, b") == ["a", "", "b"]
  {
    SanitizeKeepsClean("a, b");
    assert "a, b" == "a" + "," + " b";
    CollapseRun("a", ",", " b");
    CollapseKeepsPlain("a");
    CollapseKeepsPlain(" b");
    assert Join(["a", "", "b"], ' ') == "a  b";
    JoinThenSplit(["a", "", "b"], ' ');
  }
}
