/**
 * The JavaScript string operations the generators rely on, stated on
 * `seq<char>`: the whitespace class `\s`, `split(/\s+/).filter(Boolean)`,
 * `trim()`, `split(c)` on a one-character separator and `join(sep)`.
 */
module Strings {

  /** JavaScript's `\s` class, which is also the set of characters `trim()`
      removes: the WhiteSpace and LineTerminator characters of ECMAScript. */
  predicate IsSpace(c: char) {
    || c == ' ' || c == '\t' || c == '\n' || c == '\r' || c == '\U{B}' || c == '\U{C}'
    || c == '\U{A0}' || c == '\U{1680}' || ('\U{2000}' <= c <= '\U{200A}')
    || c == '\U{2028}' || c == '\U{2029}' || c == '\U{202F}' || c == '\U{205F}'
    || c == '\U{3000}' || c == '\U{FEFF}'
  }

  predicate NoSpace(s: string) {
    forall i :: 0 <= i < |s| ==> !IsSpace(s[i])
  }

  predicate AllSpace(s: string) {
    forall i :: 0 <= i < |s| ==> IsSpace(s[i])
  }

  /** A word: a non-empty run of non-whitespace characters. */
  predicate IsWord(w: string) {
    w != [] && NoSpace(w)
  }

  function Min(a: int, b: int): int { if a <= b then a else b }

  function Max(a: int, b: int): int { if a >= b then a else b }

  /** Length of the leading run of non-whitespace characters of `s`. */
  function WordLen(s: string): (n: nat)
    ensures n <= |s|
    ensures NoSpace(s[..n])
    ensures n < |s| ==> IsSpace(s[n])
  {
    if s == [] || IsSpace(s[0]) then 0
    else
      var n := 1 + WordLen(s[1..]);
      assert s[..n] == [s[0]] + s[1..][..n - 1];
      n
  }

  /** `s.split(/\s+/).filter(Boolean)`: the maximal runs of non-whitespace
      characters of `s`, left to right. */
  function Words(s: string): (ws: seq<string>)
    ensures forall i :: 0 <= i < |ws| ==> IsWord(ws[i])
    decreases |s|
  {
    if s == [] then []
    else if IsSpace(s[0]) then Words(s[1..])
    else
      var n := WordLen(s);
      [s[..n]] + Words(s[n..])
  }

  /** The words of each string of `ls`, concatenated. */
  function FlatWords(ls: seq<string>): seq<string> {
    if ls == [] then [] else Words(ls[0]) + FlatWords(ls[1..])
  }

  /** `ls.join(sep)`. */
  function Join(ls: seq<string>, sep: string): string {
    if |ls| == 0 then ""
    else if |ls| == 1 then ls[0]
    else ls[0] + sep + Join(ls[1..], sep)
  }

  /** `s.split(d)` for a one-character separator `d`: the pieces between
      successive occurrences of `d`, empty pieces included. */
  function Split(s: string, d: char): (r: seq<string>)
    ensures |r| >= 1
    ensures d !in s ==> r == [s]
    ensures d in s ==> |r| >= 2
  {
    if s == [] then [""]
    else
      var rest := Split(s[1..], d);
      if s[0] == d then [""] + rest
      else
        assert d !in s ==> s == [s[0]] + s[1..];
        [[s[0]] + rest[0]] + rest[1..]
  }

  /** `s.trimStart()`. */
  function TrimStart(s: string): string {
    if s != [] && IsSpace(s[0]) then TrimStart(s[1..]) else s
  }

  /** `s.trimEnd()`. */
  function TrimEnd(s: string): string {
    if s != [] && IsSpace(s[|s| - 1]) then TrimEnd(s[..|s| - 1]) else s
  }

  /** `s.trim()`: `s` without its leading and trailing whitespace. */
  function Trim(s: string): string {
    TrimEnd(TrimStart(s))
  }

  /** `trimStart()` removes exactly the leading whitespace. */
  lemma {:induction false} TrimStartFacts(s: string)
    ensures var r := TrimStart(s);
      && (r == [] || !IsSpace(r[0]))
      && |r| <= |s| && r == s[|s| - |r|..] && AllSpace(s[..|s| - |r|])
      && (s != [] && IsSpace(s[0]) ==> |r| < |s|)
  {
    if s != [] && IsSpace(s[0]) {
      var t := s[1..];
      TrimStartFacts(t);
      var r := TrimStart(t);
      assert TrimStart(s) == r;
      var m := |t| - |r|;
      assert t[m..] == s[m + 1..];
      var u := s[..m + 1];
      forall i | 0 <= i < |u| ensures IsSpace(u[i]) {
        if i > 0 {
          assert u[i] == t[..m][i - 1];
        }
      }
    }
  }

  /** `trimEnd()` removes exactly the trailing whitespace. */
  lemma {:induction false} TrimEndFacts(s: string)
    ensures var r := TrimEnd(s);
      && (r == [] || !IsSpace(r[|r| - 1]))
      && |r| <= |s| && r == s[..|r|] && AllSpace(s[|r|..])
  {
    if s != [] && IsSpace(s[|s| - 1]) {
      TrimEndFacts(s[..|s| - 1]);
      var r := TrimEnd(s[..|s| - 1]);
      assert s[|r|..] == s[..|s| - 1][|r|..] + [s[|s| - 1]];
    }
  }

  /** The trimmed string neither starts nor ends with whitespace. */
  lemma TrimEnds(s: string)
    ensures var r := Trim(s); r == [] || (!IsSpace(r[0]) && !IsSpace(r[|r| - 1]))
  {
    var t := TrimStart(s);
    TrimStartFacts(s);
    TrimEndFacts(t);
    var r := TrimEnd(t);
    if r != [] {
      assert r[0] == t[0];
    }
  }

  /** What `trim()` removes is whitespace on either side. */
  lemma TrimParts(s: string) returns (p: string, q: string)
    ensures AllSpace(p) && AllSpace(q) && s == p + Trim(s) + q
  {
    var t := TrimStart(s);
    p := TrimStartSplit(s);
    q := TrimEndSplit(t);
    AppendAssoc(p, TrimEnd(t), q);
  }

  lemma TrimStartSplit(s: string) returns (p: string)
    ensures AllSpace(p) && s == p + TrimStart(s)
  {
    TrimStartFacts(s);
    var t := TrimStart(s);
    p := s[..|s| - |t|];
    SplitAt(s, |s| - |t|);
  }

  lemma TrimEndSplit(t: string) returns (q: string)
    ensures AllSpace(q) && t == TrimEnd(t) + q
  {
    TrimEndFacts(t);
    var r := TrimEnd(t);
    q := t[|r|..];
    SplitAt(t, |r|);
  }

  lemma SplitAt<T>(s: seq<T>, k: nat)
    requires k <= |s|
    ensures s == s[..k] + s[k..]
  {
  }

  lemma AppendAssoc<T>(a: seq<T>, b: seq<T>, c: seq<T>)
    ensures a + (b + c) == a + b + c
  {
  }

  // ---------------------------------------------------------------------
  // Lemmas about Words

  lemma {:induction false} WordLenIs(s: string, n: nat)
    requires n <= |s| && NoSpace(s[..n]) && (n < |s| ==> IsSpace(s[n]))
    ensures WordLen(s) == n
  {
    if n == 0 {
      assert s == [] || IsSpace(s[0]);
    } else {
      assert s[..n][0] == s[0];
      var t := s[1..];
      var u := t[..n - 1];
      assert u == s[..n][1..];
      assert NoSpace(u) by {
        forall i | 0 <= i < |u| ensures !IsSpace(u[i]) {
          assert u[i] == s[..n][i + 1];
        }
      }
      assert n - 1 < |t| ==> t[n - 1] == s[n];
      WordLenIs(t, n - 1);
    }
  }

  /** A word is its own only word. */
  lemma WordsOfWord(w: string)
    requires IsWord(w)
    ensures Words(w) == [w]
  {
    WordLenIs(w, |w|);
    assert w[..|w|] == w;
    assert w[|w|..] == [];
  }

  /** Words never straddle a whitespace character. */
  lemma {:induction false} WordsAroundSpace(a: string, c: char, b: string)
    requires IsSpace(c)
    ensures Words(a + [c] + b) == Words(a) + Words(b)
    decreases |a|
  {
    var s := a + [c] + b;
    if a == [] {
      assert s[1..] == b;
    } else if IsSpace(a[0]) {
      assert s[1..] == a[1..] + [c] + b;
      WordsAroundSpace(a[1..], c, b);
    } else {
      var n := WordLen(a);
      assert s[..n] == a[..n];
      assert s[n] == if n < |a| then a[n] else c;
      WordLenIs(s, n);
      assert s[n..] == a[n..] + [c] + b;
      WordsAroundSpace(a[n..], c, b);
    }
  }

  lemma {:induction false} WordsOfSpaces(s: string)
    requires AllSpace(s)
    ensures Words(s) == []
  {
    if s != [] {
      WordsOfSpaces(s[1..]);
    }
  }

  lemma {:induction false} WordsSpacesBefore(p: string, s: string)
    requires AllSpace(p)
    ensures Words(p + s) == Words(s)
  {
    if p != [] {
      assert (p + s)[0] == p[0] && IsSpace(p[0]);
      assert (p + s)[1..] == p[1..] + s;
      assert AllSpace(p[1..]) by {
        forall i | 0 <= i < |p| - 1 ensures IsSpace(p[1..][i]) { assert p[1..][i] == p[i + 1]; }
      }
      WordsSpacesBefore(p[1..], s);
    } else {
      assert p + s == s;
    }
  }

  lemma WordsSpacesAfter(s: string, q: string)
    requires AllSpace(q)
    ensures Words(s + q) == Words(s)
  {
    if q != [] {
      assert s + q == s + [q[0]] + q[1..];
      assert AllSpace(q[1..]) by {
        forall i | 0 <= i < |q| - 1 ensures IsSpace(q[1..][i]) { assert q[1..][i] == q[i + 1]; }
      }
      WordsAroundSpace(s, q[0], q[1..]);
      WordsOfSpaces(q[1..]);
      assert Words(s) + [] == Words(s);
    } else {
      assert s + q == s;
    }
  }

  /** Trimming never changes the words of a string. */
  lemma WordsOfTrim(s: string)
    ensures Words(Trim(s)) == Words(s)
  {
    var p, q := TrimParts(s);
    var r := Trim(s);
    assert s == p + (r + q);
    WordsSpacesBefore(p, r + q);
    WordsSpacesAfter(r, q);
  }

  /** Joining with a blank and splitting on whitespace gives back the words
      of the pieces, in order. */
  lemma {:induction false} WordsOfJoin(ls: seq<string>)
    ensures Words(Join(ls, " ")) == FlatWords(ls)
  {
    if |ls| == 1 {
      assert FlatWords(ls) == Words(ls[0]) + FlatWords([]);
    } else if |ls| > 1 {
      WordsOfJoin(ls[1..]);
      assert ls[0] + " " + Join(ls[1..], " ") == ls[0] + [' '] + Join(ls[1..], " ");
      WordsAroundSpace(ls[0], ' ', Join(ls[1..], " "));
    }
  }

  lemma {:induction false} FlatWordsAppend(ls: seq<string>, l: string)
    ensures FlatWords(ls + [l]) == FlatWords(ls) + Words(l)
  {
    if ls == [] {
      assert FlatWords([l]) == Words(l) + FlatWords([]);
    } else {
      assert (ls + [l])[1..] == ls[1..] + [l];
      FlatWordsAppend(ls[1..], l);
    }
  }

  // ---------------------------------------------------------------------
  // Lemmas about Split and Join

  /** Splitting on `d` and joining with `d` gives back the string. */
  lemma {:induction false} JoinSplit(s: string, d: char)
    ensures Join(Split(s, d), [d]) == s
  {
    if s != [] {
      var rest := Split(s[1..], d);
      JoinSplit(s[1..], d);
      if s[0] == d {
        assert Split(s, d)[1..] == rest;
      } else {
        var r := Split(s, d);
        if |rest| > 1 {
          assert r[1..] == rest[1..];
          assert Join(rest, [d]) == rest[0] + [d] + Join(rest[1..], [d]);
        }
      }
    }
  }

  /** No piece of a split holds the separator. */
  lemma {:induction false} SplitPieces(s: string, d: char)
    ensures forall i :: 0 <= i < |Split(s, d)| ==> d !in Split(s, d)[i]
  {
    if s != [] {
      SplitPieces(s[1..], d);
      var rest := Split(s[1..], d);
      if s[0] != d {
        assert d !in [s[0]] + rest[0];
        assert Split(s, d) == [[s[0]] + rest[0]] + rest[1..];
      } else {
        assert Split(s, d) == [""] + rest;
      }
    }
  }

  /** The split of a string with a first character `c`. */
  lemma SplitCons(c: char, t: string, d: char)
    ensures var rest := Split(t, d);
      Split([c] + t, d) == if c == d then [""] + rest else [[c] + rest[0]] + rest[1..]
  {
    assert ([c] + t)[1..] == t;
  }

  /** Splitting distributes over a separator. */
  lemma {:induction false} SplitAround(a: string, d: char, b: string)
    ensures Split(a + [d] + b, d) == Split(a, d) + Split(b, d)
  {
    if a == [] {
      assert a + [d] + b == [d] + b;
      SplitCons(d, b, d);
    } else {
      var t := a[1..];
      SplitAround(t, d, b);
      assert a + [d] + b == [a[0]] + (t + [d] + b);
      assert a == [a[0]] + t;
      SplitAroundStep(a[0], t, d, b);
    }
  }

  /** The inductive step of `SplitAround`: one more leading character. */
  lemma SplitAroundStep(c: char, t: string, d: char, b: string)
    requires Split(t + [d] + b, d) == Split(t, d) + Split(b, d)
    ensures Split([c] + (t + [d] + b), d) == Split([c] + t, d) + Split(b, d)
  {
    var ra, rb := Split(t, d), Split(b, d);
    SplitCons(c, t + [d] + b, d);
    SplitCons(c, t, d);
    if c != d {
      HeadTailAppend(ra, rb);
      ConsAssoc([c] + ra[0], ra[1..], rb);
    } else {
      ConsAssoc("", ra, rb);
    }
  }

  lemma HeadTailAppend<T>(p: seq<T>, q: seq<T>)
    requires p != []
    ensures (p + q)[0] == p[0] && (p + q)[1..] == p[1..] + q
  {
  }

  lemma ConsAssoc<T>(x: T, p: seq<T>, q: seq<T>)
    ensures [x] + (p + q) == ([x] + p) + q
  {
  }

  lemma TakeSnoc<T>(s: seq<T>, k: nat)
    requires k < |s|
    ensures s[..k + 1] == s[..k] + [s[k]]
  {
  }

  /** The leading pieces of a split, rejoined, form a prefix of the string. */
  lemma {:induction false} JoinPrefix(ls: seq<string>, k: nat, sep: string)
    requires 1 <= k <= |ls|
    ensures Join(ls[..k], sep) <= Join(ls, sep)
  {
    if k == 1 {
      assert ls[..1] == [ls[0]];
    } else {
      JoinPrefix(ls[1..], k - 1, sep);
      assert ls[..k][1..] == ls[1..][..k - 1];
    }
  }
}
