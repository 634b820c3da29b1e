/** The string functions of Go that the model lists and the page-size list rest on. */
module Text {

  /** `unicode.IsSpace`. */
  predicate IsSpace(c: char) {
    c == ' ' || '\t' <= c <= '\r' || c == '\U{85}' || c == '\U{A0}' || c == '\U{1680}'
    || '\U{2000}' <= c <= '\U{200A}' || c == '\U{2028}' || c == '\U{2029}' || c == '\U{202F}'
    || c == '\U{205F}' || c == '\U{3000}'
  }

  function TrimLeft(s: string): string {
    if s != [] && IsSpace(s[0]) then TrimLeft(s[1..]) else s
  }

  function TrimRight(s: string): string {
    if s != [] && IsSpace(s[|s| - 1]) then TrimRight(s[..|s| - 1]) else s
  }

  /** `strings.TrimSpace`. */
  function Trim(s: string): string {
    TrimRight(TrimLeft(s))
  }

  /** Neither end is white space. */
  predicate Trimmed(s: string) {
    s == [] || (!IsSpace(s[0]) && !IsSpace(s[|s| - 1]))
  }

  lemma {:induction false} TrimLeftSpec(s: string)
    ensures TrimLeft(s) == [] || !IsSpace(TrimLeft(s)[0])
    ensures forall c :: c in TrimLeft(s) ==> c in s
  {
    if s != [] && IsSpace(s[0]) {
      TrimLeftSpec(s[1..]);
    }
  }

  lemma {:induction false} TrimRightSpec(s: string)
    requires s == [] || !IsSpace(s[0])
    ensures Trimmed(TrimRight(s))
    ensures forall c :: c in TrimRight(s) ==> c in s
  {
    if s != [] && IsSpace(s[|s| - 1]) {
      TrimRightSpec(s[..|s| - 1]);
    }
  }

  lemma TrimSpec(s: string)
    ensures Trimmed(Trim(s))
    ensures forall c :: c in Trim(s) ==> c in s
  {
    TrimLeftSpec(s);
    TrimRightSpec(TrimLeft(s));
  }

  /** Text without white space at its ends is left alone. */
  lemma TrimFixed(s: string)
    requires Trimmed(s)
    ensures Trim(s) == s
  {
  }

  predicate AllSpace(s: string) {
    forall i :: 0 <= i < |s| ==> IsSpace(s[i])
  }

  /** `t` is `s` with white space around it. */
  ghost predicate Surrounded(t: string, s: string) {
    exists a: string, b: string :: AllSpace(a) && AllSpace(b) && t == a + s + b
  }

  lemma Surrounding(a: string, s: string, b: string)
    requires AllSpace(a) && AllSpace(b)
    ensures Surrounded(a + s + b, s)
  {
  }

  lemma {:induction false} TrimLeftDrops(a: string, s: string)
    requires AllSpace(a) && (s == [] || !IsSpace(s[0]))
    ensures TrimLeft(a + s) == s
  {
    if a == [] {
      assert a + s == s;
    } else {
      assert (a + s)[1..] == a[1..] + s;
      TrimLeftDrops(a[1..], s);
    }
  }

  lemma {:induction false} TrimRightDrops(s: string, b: string)
    requires AllSpace(b) && (s == [] || !IsSpace(s[|s| - 1]))
    ensures TrimRight(s + b) == s
  {
    if b == [] {
      assert s + b == s;
    } else {
      var n := |b| - 1;
      assert (s + b)[..|s + b| - 1] == s + b[..n];
      TrimRightDrops(s, b[..n]);
    }
  }

  /** Trimming removes any white space around a text without white space at its ends. */
  lemma TrimBetween(a: string, s: string, b: string)
    requires AllSpace(a) && AllSpace(b) && Trimmed(s)
    ensures Trim(a + s + b) == s
  {
    if s == [] {
      assert a + s + b == (a + b) + [];
      TrimLeftDrops(a + b, []);
    } else {
      assert a + s + b == a + (s + b);
      TrimLeftDrops(a, s + b);
      TrimRightDrops(s, b);
    }
  }

  lemma {:induction false} TrimLeftSplits(t: string) returns (a: string)
    ensures AllSpace(a) && t == a + TrimLeft(t)
  {
    if t != [] && IsSpace(t[0]) {
      assert TrimLeft(t) == TrimLeft(t[1..]);
      hide TrimLeft;
      var rest := TrimLeftSplits(t[1..]);
      a := [t[0]] + rest;
      assert t == [t[0]] + t[1..];
    } else {
      a := [];
    }
  }

  lemma {:induction false} TrimRightSplits(t: string) returns (b: string)
    ensures AllSpace(b) && t == TrimRight(t) + b
  {
    if t != [] && IsSpace(t[|t| - 1]) {
      assert TrimRight(t) == TrimRight(t[..|t| - 1]);
      hide TrimRight;
      var rest := TrimRightSplits(t[..|t| - 1]);
      b := rest + [t[|t| - 1]];
      assert t == t[..|t| - 1] + [t[|t| - 1]];
    } else {
      b := [];
    }
  }

  /** Trimming is that and nothing else: the result is the one text without white space at its ends that the input
      is with white space around it. */
  lemma TrimExact(t: string, s: string)
    ensures Trim(t) == s <==> Trimmed(s) && Surrounded(t, s)
  {
    if Trim(t) == s {
      TrimSpec(t);
      var a := TrimLeftSplits(t);
      var b := TrimRightSplits(TrimLeft(t));
      assert t == a + s + b;
    }
    if Trimmed(s) && Surrounded(t, s) {
      var a: string, b: string :| AllSpace(a) && AllSpace(b) && t == a + s + b;
      TrimBetween(a, s, b);
    }
  }

  /** The white space of ASCII. */
  lemma AsciiSpace(c: char)
    requires c < '\U{80}'
    ensures IsSpace(c) <==> c in " \t\n\r" || c == '\U{0B}' || c == '\U{0C}'
  {
  }

  /** `strings.Split` on one separator character: always at least one part. */
  function Split(s: string, sep: char): (parts: seq<string>)
    ensures parts != []
  {
    if s == [] then [[]] else Prepend(s[0], Split(s[1..], sep), sep)
  }

  /** One more character in front: a new part, or the start of the first one. */
  function Prepend(c: char, parts: seq<string>, sep: char): (r: seq<string>)
    requires parts != []
    ensures r != []
  {
    if c == sep then [[]] + parts else [[c] + parts[0]] + parts[1..]
  }

  lemma PrependConcat(c: char, a: seq<string>, b: seq<string>, sep: char)
    requires a != []
    ensures Prepend(c, a + b, sep) == Prepend(c, a, sep) + b
  {
    assert (a + b)[0] == a[0] && (a + b)[1..] == a[1..] + b;
  }

  /** `strings.Join` with one separator character. */
  function Join(parts: seq<string>, sep: char): string {
    if parts == [] then [] else if |parts| == 1 then parts[0] else parts[0] + [sep] + Join(parts[1..], sep)
  }

  lemma {:induction false} SplitNoSep(s: string, sep: char)
    requires sep !in s
    ensures Split(s, sep) == [s]
  {
    if s != [] {
      assert s[0] in s;
      SplitNoSep(s[1..], sep);
      assert [s[0]] + s[1..] == s;
    }
  }

  lemma {:induction false} SplitCons(s: string, rest: string, sep: char)
    requires sep !in s
    ensures Split(s + [sep] + rest, sep) == [s] + Split(rest, sep)
  {
    var t := s + [sep] + rest;
    if s == [] {
      assert t[1..] == rest;
    } else {
      assert s[0] in s;
      assert t[1..] == s[1..] + [sep] + rest;
      SplitCons(s[1..], rest, sep);
      assert [s[0]] + s[1..] == s;
    }
  }

  /** A separator splits what is before it from what is after it. */
  lemma {:induction false} SplitConcat(a: string, b: string, sep: char)
    ensures Split(a + [sep] + b, sep) == Split(a, sep) + Split(b, sep)
  {
    var t := a + [sep] + b;
    if a == [] {
      assert t[1..] == b;
    } else {
      assert t[1..] == a[1..] + [sep] + b && t[0] == a[0];
      hide Prepend;
      SplitConcat(a[1..], b, sep);
      PrependConcat(a[0], Split(a[1..], sep), Split(b, sep), sep);
    }
  }

  /** Splitting what was joined gives the parts back when none contains the separator. */
  lemma {:induction false} SplitJoin(parts: seq<string>, sep: char)
    requires parts != [] && forall i :: 0 <= i < |parts| ==> sep !in parts[i]
    ensures Split(Join(parts, sep), sep) == parts
  {
    if |parts| == 1 {
      SplitNoSep(parts[0], sep);
    } else {
      SplitJoin(parts[1..], sep);
      SplitCons(parts[0], Join(parts[1..], sep), sep);
    }
  }

  /** Joining what was split gives the text back. */
  lemma {:induction false} JoinSplit(s: string, sep: char)
    ensures Join(Split(s, sep), sep) == s
  {
    if s != [] {
      var rest := Split(s[1..], sep);
      JoinSplit(s[1..], sep);
      JoinPrepend(s[0], rest, sep);
      assert s == [s[0]] + s[1..];
    }
  }

  lemma JoinPrepend(c: char, parts: seq<string>, sep: char)
    requires parts != []
    ensures Join(Prepend(c, parts, sep), sep) == [c] + Join(parts, sep)
  {
    var r := Prepend(c, parts, sep);
    if c == sep {
      assert r[1..] == parts;
    } else if |parts| > 1 {
      assert r[1..] == parts[1..] && r[0] == [c] + parts[0];
      assert Join(r, sep) == r[0] + [sep] + Join(r[1..], sep);
    }
  }

  /** No part of a split contains the separator. */
  lemma {:induction false} SplitParts(s: string, sep: char)
    ensures forall i :: 0 <= i < |Split(s, sep)| ==> sep !in Split(s, sep)[i]
  {
    if s != [] {
      SplitParts(s[1..], sep);
    }
  }
}
