/**
 * `xmlEsc` of generate-repo-slide.mjs: five global replaces, `&` first,
 * that turn the five characters with predefined entities in section 4.6 of
 * XML 1.0 into those entities. The chain of replaces is proved equal to a
 * per-character map, and the properties are proved of that map.
 */
module XmlEscape {

  /** `s.replace(/c/g, rep)` for a single character `c`. */
  function ReplaceAll(s: string, c: char, rep: string): string {
    if s == [] then [] else (if s[0] == c then rep else [s[0]]) + ReplaceAll(s[1..], c, rep)
  }

  /** `xmlEsc(s)` exactly as written: five replaces in order. */
  function XmlEsc(s: string): string {
    var amp := ReplaceAll(s, '&', "&amp;");
    var lt := ReplaceAll(amp, '<', "&lt;");
    var gt := ReplaceAll(lt, '>', "&gt;");
    var quot := ReplaceAll(gt, '"', "&quot;");
    ReplaceAll(quot, '\'', "&apos;")
  }

  predicate IsSpecial(c: char) {
    c == '&' || c == '<' || c == '>' || c == '"' || c == '\''
  }

  /** The five predefined entities of XML 1.0. */
  predicate IsEntity(e: string) {
    e == "&amp;" || e == "&lt;" || e == "&gt;" || e == "&quot;" || e == "&apos;"
  }

  /** The entity for a special character, the character itself otherwise. */
  function EscapeChar(c: char): (r: string)
    ensures IsSpecial(c) ==> IsEntity(r)
    ensures !IsSpecial(c) ==> r == [c]
  {
    match c
    case '&' => "&amp;"
    case '<' => "&lt;"
    case '>' => "&gt;"
    case '"' => "&quot;"
    case '\'' => "&apos;"
    case _ => [c]
  }

  /** Each character replaced by its escape, left to right. */
  function EscapeEach(s: string): (r: string)
    ensures forall i :: 0 <= i < |r| ==> r[i] != '<' && r[i] != '>' && r[i] != '"' && r[i] != '\''
  {
    if s == [] then [] else EscapeChar(s[0]) + EscapeEach(s[1..])
  }

  /** Decoding of the five predefined entities; any other `&` stays as it is. */
  function Unescape(s: string): string
    decreases |s|
  {
    if s == [] then []
    else if "&amp;" <= s then "&" + Unescape(s[5..])
    else if "&lt;" <= s then "<" + Unescape(s[4..])
    else if "&gt;" <= s then ">" + Unescape(s[4..])
    else if "&quot;" <= s then "\"" + Unescape(s[6..])
    else if "&apos;" <= s then "'" + Unescape(s[6..])
    else [s[0]] + Unescape(s[1..])
  }

  // ---------------------------------------------------------------------

  lemma {:induction false} ReplaceAllAppend(a: string, b: string, c: char, rep: string)
    ensures ReplaceAll(a + b, c, rep) == ReplaceAll(a, c, rep) + ReplaceAll(b, c, rep)
  {
    if a == [] {
      assert a + b == b;
    } else {
      assert (a + b)[1..] == a[1..] + b;
      ReplaceAllAppend(a[1..], b, c, rep);
    }
  }

  lemma {:induction false} ReplaceAllAbsent(s: string, c: char, rep: string)
    requires c !in s
    ensures ReplaceAll(s, c, rep) == s
  {
    if s != [] {
      ReplaceAllAbsent(s[1..], c, rep);
    }
  }

  lemma ReplaceAllOne(c: char, d: char, rep: string)
    ensures ReplaceAll([c], d, rep) == if c == d then rep else [c]
  {
    assert [c][1..] == [];
  }

  lemma XmlEscAppend(a: string, b: string)
    ensures XmlEsc(a + b) == XmlEsc(a) + XmlEsc(b)
  {
    var a1, b1 := ReplaceAll(a, '&', "&amp;"), ReplaceAll(b, '&', "&amp;");
    ReplaceAllAppend(a, b, '&', "&amp;");
    var a2, b2 := ReplaceAll(a1, '<', "&lt;"), ReplaceAll(b1, '<', "&lt;");
    ReplaceAllAppend(a1, b1, '<', "&lt;");
    var a3, b3 := ReplaceAll(a2, '>', "&gt;"), ReplaceAll(b2, '>', "&gt;");
    ReplaceAllAppend(a2, b2, '>', "&gt;");
    var a4, b4 := ReplaceAll(a3, '"', "&quot;"), ReplaceAll(b3, '"', "&quot;");
    ReplaceAllAppend(a3, b3, '"', "&quot;");
    ReplaceAllAppend(a4, b4, '\'', "&apos;");
  }

  /** Applying the replaces of `xmlEsc` after the first one to an escaped
      character changes nothing, so on one character the chain is the map. */
  lemma XmlEscChar(c: char)
    ensures XmlEsc([c]) == EscapeChar(c)
  {
    ReplaceAllOne(c, '&', "&amp;");
    if c == '&' {
      Untouched("&amp;");
    } else {
      ReplaceAllOne(c, '<', "&lt;");
      if c == '<' {
        Untouched("&lt;");
      } else {
        ReplaceAllOne(c, '>', "&gt;");
        if c == '>' {
          Untouched("&gt;");
        } else {
          ReplaceAllOne(c, '"', "&quot;");
          if c == '"' {
            Untouched("&quot;");
          } else {
            ReplaceAllOne(c, '\'', "&apos;");
          }
        }
      }
    }
  }

  /** The four replaces of `xmlEsc` after the first leave a string without
      `<`, `>`, `"` and `'` as it is. */
  lemma Untouched(e: string)
    requires forall i :: 0 <= i < |e| ==> !IsSpecial(e[i]) || e[i] == '&'
    ensures ReplaceAll(e, '<', "&lt;") == e
    ensures ReplaceAll(e, '>', "&gt;") == e
    ensures ReplaceAll(e, '"', "&quot;") == e
    ensures ReplaceAll(e, '\'', "&apos;") == e
  {
    assert '<' !in e && '>' !in e && '"' !in e && '\'' !in e;
    ReplaceAllAbsent(e, '<', "&lt;");
    ReplaceAllAbsent(e, '>', "&gt;");
    ReplaceAllAbsent(e, '"', "&quot;");
    ReplaceAllAbsent(e, '\'', "&apos;");
  }

  /** The chain of five replaces is the per-character escape: replacing `&`
      first means no entity produced by a later replace is escaped again. */
  lemma {:induction false} XmlEscIsEscapeEach(s: string)
    ensures XmlEsc(s) == EscapeEach(s)
  {
    if s == [] {
    } else {
      assert s == [s[0]] + s[1..];
      XmlEscAppend([s[0]], s[1..]);
      XmlEscChar(s[0]);
      XmlEscIsEscapeEach(s[1..]);
    }
  }

  /** The output holds no `<`, `>`, `"` or `'`. */
  lemma NoMarkupLeft(s: string)
    ensures forall c :: c in XmlEsc(s) ==> c != '<' && c != '>' && c != '"' && c != '\''
  {
    XmlEscIsEscapeEach(s);
  }

  /** Every `&` of the output starts one of the five entities. */
  lemma AmpersandsStartEntities(s: string)
    ensures forall i :: 0 <= i < |XmlEsc(s)| && XmlEsc(s)[i] == '&' ==>
              exists k :: i < k <= |XmlEsc(s)| && IsEntity(XmlEsc(s)[i..k])
  {
    XmlEscIsEscapeEach(s);
    EscapedAmpersands(s);
    assert AmpersandsEntities(XmlEsc(s));
  }

  /** Every `&` of `r` starts one of the five entities. */
  ghost predicate AmpersandsEntities(r: string) {
    forall i :: 0 <= i < |r| && r[i] == '&' ==> exists k :: i < k <= |r| && IsEntity(r[i..k])
  }

  lemma {:induction false} EscapedAmpersands(s: string)
    ensures AmpersandsEntities(EscapeEach(s))
  {
    if s != [] {
      EscapedAmpersands(s[1..]);
      CharAmpersands(s[0]);
      AmpersandsAppend(EscapeChar(s[0]), EscapeEach(s[1..]));
    }
  }

  /** The escape of one character has `&` only where an entity starts. */
  lemma CharAmpersands(c: char)
    ensures AmpersandsEntities(EscapeChar(c))
  {
    var e := EscapeChar(c);
    if IsSpecial(c) {
      assert e[0] == '&' && forall i :: 0 < i < |e| ==> e[i] != '&';
      assert e[0..|e|] == e;
    }
  }

  /** Entities on both sides of a concatenation are entities in it. */
  lemma AmpersandsAppend(a: string, b: string)
    requires AmpersandsEntities(a) && AmpersandsEntities(b)
    ensures AmpersandsEntities(a + b)
  {
    var r := a + b;
    forall i | 0 <= i < |r| && r[i] == '&'
      ensures exists k :: i < k <= |r| && IsEntity(r[i..k])
    {
      if i < |a| {
        assert a[i] == '&';
        var k :| i < k <= |a| && IsEntity(a[i..k]);
        SliceLeft(a, b, i, k);
      } else {
        var j := i - |a|;
        assert b[j] == '&';
        var k :| j < k <= |b| && IsEntity(b[j..k]);
        SliceRight(a, b, j, k);
      }
    }
  }

  lemma SliceLeft<T>(a: seq<T>, b: seq<T>, i: nat, k: nat)
    requires i <= k <= |a|
    ensures (a + b)[i..k] == a[i..k]
  {
  }

  lemma SliceRight<T>(a: seq<T>, b: seq<T>, j: nat, k: nat)
    requires j <= k <= |b|
    ensures (a + b)[|a| + j..|a| + k] == b[j..k]
  {
  }

  /** A string free of the five characters is returned unchanged. */
  lemma {:induction false} PlainUnchanged(s: string)
    requires forall i :: 0 <= i < |s| ==> !IsSpecial(s[i])
    ensures XmlEsc(s) == s
  {
    ReplaceAllAbsent(s, '&', "&amp;");
    ReplaceAllAbsent(s, '<', "&lt;");
    ReplaceAllAbsent(s, '>', "&gt;");
    ReplaceAllAbsent(s, '"', "&quot;");
    ReplaceAllAbsent(s, '\'', "&apos;");
  }

  /** Decoding the entities recovers the input: nothing is escaped twice. */
  lemma {:induction false} UnescapeEscape(s: string)
    ensures Unescape(XmlEsc(s)) == s
  {
    XmlEscIsEscapeEach(s);
    UnescapeEach(s);
  }

  lemma {:induction false} UnescapeEach(s: string)
    ensures Unescape(EscapeEach(s)) == s
  {
    if s != [] {
      UnescapeEach(s[1..]);
      UnescapeStep(s[0], EscapeEach(s[1..]));
      assert s == [s[0]] + s[1..];
    }
  }

  /** Decoding reads back one escaped character and goes on after it. */
  lemma UnescapeStep(c: char, rest: string)
    ensures Unescape(EscapeChar(c) + rest) == [c] + Unescape(rest)
  {
    var t := EscapeChar(c) + rest;
    if c == '&' {
      assert "&amp;" <= t && t[5..] == rest;
    } else if c == '<' {
      assert t[1] == 'l';
      assert !("&amp;" <= t) && "&lt;" <= t && t[4..] == rest;
    } else if c == '>' {
      assert t[1] == 'g';
      assert !("&amp;" <= t) && !("&lt;" <= t) && "&gt;" <= t && t[4..] == rest;
    } else if c == '"' {
      assert t[1] == 'q';
      assert !("&amp;" <= t) && !("&lt;" <= t) && !("&gt;" <= t);
      assert "&quot;" <= t && t[6..] == rest;
    } else if c == '\'' {
      assert t[1] == 'a' && t[2] == 'p';
      assert !("&amp;" <= t) && !("&lt;" <= t) && !("&gt;" <= t) && !("&quot;" <= t);
      assert "&apos;" <= t && t[6..] == rest;
    } else {
      assert t[0] == c && t[1..] == rest;
      assert !("&amp;" <= t) && !("&lt;" <= t) && !("&gt;" <= t) && !("&quot;" <= t) && !("&apos;" <= t);
    }
  }
}
