/**
 * `escapeXml` from scripts/generate-rss.js: five global replacements run one
 * after another, `&` first, then `<`, `>`, `"` and `'`, each character
 * becoming its predefined XML entity.
 *
 * `EscapeXml` is that chain as written. `Escape` is the character-by-
 * character encoder it amounts to; the two are proved equal, which is the
 * statement that no entity introduced by the chain is escaped a second time.
 * `Unescape` decodes the five entities and undoes `Escape`.
 */
module Xml {
  import opened Text

  /** The five characters `escapeXml` replaces. */
  predicate Special(c: char) {
    c == '&' || c == '<' || c == '>' || c == '"' || c == '\''
  }

  /** The entity each special character is written as; any other character stands for itself. */
  function EscapeChar(c: char): (r: string)
    ensures Special(c) ==> |r| >= 4 && r[0] == '&' && r[|r| - 1] == ';'
    ensures !Special(c) ==> r == [c]
    ensures forall j :: 0 < j < |r| ==> !Special(r[j])
  {
    if c == '&' then "&amp;"
    else if c == '<' then "&lt;"
    else if c == '>' then "&gt;"
    else if c == '"' then "&quot;"
    else if c == '\'' then "&apos;"
    else [c]
  }

  /** `str.replace(/c/g, rep)`: every occurrence of `c` becomes `rep`, everything else is kept in order. */
  function ReplaceAll(s: string, c: char, rep: string): (r: string)
    ensures c !in rep ==> c !in r
    ensures c !in s ==> r == s
    ensures |rep| >= 1 ==> |r| >= |s|
  {
    if s == [] then []
    else (if s[0] == c then rep else [s[0]]) + ReplaceAll(s[1..], c, rep)
  }

  /**
   * The replacement chain of `escapeXml`, in the order the source runs it.
   * It never shortens its input, and text holding none of the five
   * characters comes out unchanged.
   */
  function EscapeXml(s: string): (r: string)
    ensures |r| >= |s|
    ensures (forall i :: 0 <= i < |s| ==> !Special(s[i])) ==> r == s
  {
    assert (forall i :: 0 <= i < |s| ==> !Special(s[i])) ==> '&' !in s && '<' !in s && '>' !in s && '"' !in s && '\'' !in s;
    var amp := ReplaceAll(s, '&', "&amp;");
    var lt := ReplaceAll(amp, '<', "&lt;");
    var gt := ReplaceAll(lt, '>', "&gt;");
    var quot := ReplaceAll(gt, '"', "&quot;");
    ReplaceAll(quot, '\'', "&apos;")
  }

  /** The character-wise encoder: each character replaced by `EscapeChar` of it. */
  function Escape(s: string): (r: string)
    ensures |r| >= |s|
  {
    if s == [] then [] else EscapeChar(s[0]) + Escape(s[1..])
  }

  /** `s` starts with `p`. */
  predicate Prefixed(s: string, p: string) {
    |p| <= |s| && s[..|p|] == p
  }

  /** Reads the five entities back as their characters; anything else is copied. */
  function Unescape(s: string): string
    decreases |s|
  {
    if s == [] then []
    else if Prefixed(s, "&amp;") then "&" + Unescape(s[5..])
    else if Prefixed(s, "&lt;") then "<" + Unescape(s[4..])
    else if Prefixed(s, "&gt;") then ">" + Unescape(s[4..])
    else if Prefixed(s, "&quot;") then "\"" + Unescape(s[6..])
    else if Prefixed(s, "&apos;") then "'" + Unescape(s[6..])
    else [s[0]] + Unescape(s[1..])
  }

  /** One of the five entities starts at index `i` of `s`. */
  predicate EntityAt(s: string, i: nat) {
    || (i + 5 <= |s| && s[i..i + 5] == "&amp;")
    || (i + 4 <= |s| && s[i..i + 4] == "&lt;")
    || (i + 4 <= |s| && s[i..i + 4] == "&gt;")
    || (i + 6 <= |s| && s[i..i + 6] == "&quot;")
    || (i + 6 <= |s| && s[i..i + 6] == "&apos;")
  }

  /** What escaped text guarantees: no raw `<`, `>`, `"` or `'`, and every `&` starts one of the five entities. */
  predicate Escaped(r: string) {
    && '<' !in r && '>' !in r && '"' !in r && '\'' !in r
    && forall i: nat :: i < |r| && r[i] == '&' ==> EntityAt(r, i)
  }

  // ---- The chain is the character-wise encoder ----

  /** A global replacement works piece by piece. */
  lemma {:induction false} ReplaceAllConcat(a: string, b: string, c: char, rep: string)
    ensures ReplaceAll(a + b, c, rep) == ReplaceAll(a, c, rep) + ReplaceAll(b, c, rep)
    decreases |a|
  {
    if a != [] {
      var h := if a[0] == c then rep else [a[0]];
      var t := a[1..];
      var ab := a + b;
      assert ab[0] == a[0] && ab[1..] == t + b;
      ReplaceAllHead(a, c, rep);
      ReplaceAllHead(ab, c, rep);
      ReplaceAllConcat(t, b, c, rep);
      ConcatAssoc(h, ReplaceAll(t, c, rep), ReplaceAll(b, c, rep));
    } else {
      assert a + b == b;
    }
  }

  /** One step of a global replacement. */
  lemma ReplaceAllHead(s: string, c: char, rep: string)
    requires s != []
    ensures ReplaceAll(s, c, rep) == (if s[0] == c then rep else [s[0]]) + ReplaceAll(s[1..], c, rep)
  {}

  /** On a single character, a global replacement is a conditional one. */
  lemma ReplaceAllChar(x: char, c: char, rep: string)
    ensures ReplaceAll([x], c, rep) == if x == c then rep else [x]
  {
    assert [x][1..] == [];
  }

  /** The whole chain works piece by piece. */
  lemma EscapeXmlConcat(a: string, b: string)
    ensures EscapeXml(a + b) == EscapeXml(a) + EscapeXml(b)
  {
    var a1, b1 := ReplaceAll(a, '&', "&amp;"), ReplaceAll(b, '&', "&amp;");
    ReplaceAllConcat(a, b, '&', "&amp;");
    var a2, b2 := ReplaceAll(a1, '<', "&lt;"), ReplaceAll(b1, '<', "&lt;");
    ReplaceAllConcat(a1, b1, '<', "&lt;");
    var a3, b3 := ReplaceAll(a2, '>', "&gt;"), ReplaceAll(b2, '>', "&gt;");
    ReplaceAllConcat(a2, b2, '>', "&gt;");
    var a4, b4 := ReplaceAll(a3, '"', "&quot;"), ReplaceAll(b3, '"', "&quot;");
    ReplaceAllConcat(a3, b3, '"', "&quot;");
    ReplaceAllConcat(a4, b4, '\'', "&apos;");
  }

  /** On one character the chain produces exactly that character's entity. */
  lemma EscapeXmlChar(x: char)
    ensures EscapeXml([x]) == EscapeChar(x)
  {
    var a := ReplaceAll([x], '&', "&amp;");
    ReplaceAllChar(x, '&', "&amp;");
    if x == '&' {
      assert a == "&amp;";
      assert '<' !in a && '>' !in a && '"' !in a && '\'' !in a;
    } else {
      assert a == [x];
      var b := ReplaceAll(a, '<', "&lt;");
      ReplaceAllChar(x, '<', "&lt;");
      if x == '<' {
        assert b == "&lt;";
        assert '>' !in b && '"' !in b && '\'' !in b;
      } else {
        assert b == [x];
        var c := ReplaceAll(b, '>', "&gt;");
        ReplaceAllChar(x, '>', "&gt;");
        if x == '>' {
          assert c == "&gt;";
          assert '"' !in c && '\'' !in c;
        } else {
          assert c == [x];
          var d := ReplaceAll(c, '"', "&quot;");
          ReplaceAllChar(x, '"', "&quot;");
          ReplaceAllChar(x, '\'', "&apos;");
          if x == '"' {
            assert d == "&quot;";
            assert '\'' !in d;
          } else {
            assert d == [x];
          }
        }
      }
    }
  }

  /**
   * No double escaping: running the five passes in the source's order is the
   * same as escaping each character of the input once.
   */
  lemma {:induction false} EscapeXmlIsEscape(s: string)
    ensures EscapeXml(s) == Escape(s)
    decreases |s|
  {
    if s == [] {
    } else {
      assert s == [s[0]] + s[1..];
      EscapeXmlConcat([s[0]], s[1..]);
      EscapeXmlChar(s[0]);
      EscapeXmlIsEscape(s[1..]);
    }
  }

  // ---- Properties of the encoder ----

  /** Escaping works piece by piece. */
  lemma {:induction false} EscapeConcat(a: string, b: string)
    ensures Escape(a + b) == Escape(a) + Escape(b)
    decreases |a|
  {
    if a != [] {
      var ab := a + b;
      assert ab[0] == a[0] && ab[1..] == a[1..] + b;
      EscapeHead(a);
      EscapeHead(ab);
      EscapeConcat(a[1..], b);
      ConcatAssoc(EscapeChar(a[0]), Escape(a[1..]), Escape(b));
    } else {
      assert a + b == b;
    }
  }

  /** One step of the character-wise encoder. */
  lemma EscapeHead(s: string)
    requires s != []
    ensures Escape(s) == EscapeChar(s[0]) + Escape(s[1..])
  {}

  /** The output holds no raw `<`, `>`, `"` or `'`. */
  lemma NoRawMetacharacters(s: string)
    ensures var r := EscapeXml(s); '<' !in r && '>' !in r && '"' !in r && '\'' !in r
  {
    EscapeXmlIsEscape(s);
    EscapeNoRaw(s);
  }

  /** `NoRawMetacharacters` for the character-wise encoder. */
  lemma {:induction false} EscapeNoRaw(s: string)
    ensures '<' !in Escape(s) && '>' !in Escape(s) && '"' !in Escape(s) && '\'' !in Escape(s)
    decreases |s|
  {
    if s != [] {
      var h := EscapeChar(s[0]);
      EscapeNoRaw(s[1..]);
      assert '<' !in h && '>' !in h && '"' !in h && '\'' !in h;
    }
  }

  /** Every `&` of the output starts one of the five entities. */
  lemma AmpersandsStartEntities(s: string)
    ensures var r := EscapeXml(s); forall i: nat :: i < |r| && r[i] == '&' ==> EntityAt(r, i)
  {
    EscapeXmlIsEscape(s);
    EscapeAmpersands(s);
  }

  /** `AmpersandsStartEntities` for the character-wise encoder. */
  lemma {:induction false} EscapeAmpersands(s: string)
    ensures forall i: nat :: i < |Escape(s)| && Escape(s)[i] == '&' ==> EntityAt(Escape(s), i)
    decreases |s|
  {
    if s != [] {
      var h, t := EscapeChar(s[0]), Escape(s[1..]);
      var r := h + t;
      assert Escape(s) == r;
      EscapeAmpersands(s[1..]);
      forall i: nat | i < |r| && r[i] == '&' ensures EntityAt(r, i) {
        if i < |h| {
          assert h[i] == '&';
          assert i == 0 && Special(s[0]);
          HeadEntity(s[0], t);
        } else {
          assert t[i - |h|] == '&';
          EntityShift(h, t, i - |h|);
        }
      }
    }
  }

  /** An escaped special character starts with its entity. */
  lemma HeadEntity(c: char, t: string)
    requires Special(c)
    ensures EntityAt(EscapeChar(c) + t, 0)
  {
    var h := EscapeChar(c);
    var r := h + t;
    assert r[..|h|] == h;
  }

  /** Shifting a slice of `t` by the length of text put in front of it. */
  lemma SliceShift(h: string, t: string, i: nat, n: nat)
    requires i + n <= |t|
    ensures (h + t)[|h| + i..|h| + i + n] == t[i..i + n]
  {
    var u := (h + t)[|h| + i..|h| + i + n];
    assert forall m :: 0 <= m < n ==> u[m] == t[i + m];
  }

  /** An entity keeps being one when text is put in front of it. */
  lemma EntityShift(h: string, t: string, i: nat)
    requires EntityAt(t, i)
    ensures EntityAt(h + t, |h| + i)
  {
    if i + 5 <= |t| && t[i..i + 5] == "&amp;" {
      SliceShift(h, t, i, 5);
    } else if i + 4 <= |t| && t[i..i + 4] == "&lt;" {
      SliceShift(h, t, i, 4);
    } else if i + 4 <= |t| && t[i..i + 4] == "&gt;" {
      SliceShift(h, t, i, 4);
    } else if i + 6 <= |t| && t[i..i + 6] == "&quot;" {
      SliceShift(h, t, i, 6);
    } else {
      SliceShift(h, t, i, 6);
    }
  }

  /** `p + t` starts with `p`, and what follows is `t`. */
  lemma PrefixedConcat(p: string, t: string)
    ensures Prefixed(p + t, p) && (p + t)[|p|..] == t
  {
    assert (p + t)[..|p|] == p;
  }

  /** A text that differs from `p` at some index within both does not start with `p`. */
  lemma NotPrefixed(s: string, p: string, j: nat)
    requires j < |p| && j < |s| && s[j] != p[j]
    ensures !Prefixed(s, p)
  {
    if |p| <= |s| {
      assert s[..|p|][j] == s[j];
    }
  }

  /** Decoding an escaped character followed by `t` gives the character and then the decoding of `t`. */
  lemma UnescapeStep(c: char, t: string)
    ensures Unescape(EscapeChar(c) + t) == [c] + Unescape(t)
  {
    var h := EscapeChar(c);
    var r := h + t;
    PrefixedConcat(h, t);
    if c == '&' {
    } else if c == '<' {
      NotPrefixed(r, "&amp;", 1);
    } else if c == '>' {
      NotPrefixed(r, "&amp;", 1);
      NotPrefixed(r, "&lt;", 1);
    } else if c == '"' {
      NotPrefixed(r, "&amp;", 1);
      NotPrefixed(r, "&lt;", 1);
      NotPrefixed(r, "&gt;", 1);
    } else if c == '\'' {
      NotPrefixed(r, "&amp;", 2);
      NotPrefixed(r, "&lt;", 1);
      NotPrefixed(r, "&gt;", 1);
      NotPrefixed(r, "&quot;", 1);
    } else {
      NotPrefixed(r, "&amp;", 0);
      NotPrefixed(r, "&lt;", 0);
      NotPrefixed(r, "&gt;", 0);
      NotPrefixed(r, "&quot;", 0);
      NotPrefixed(r, "&apos;", 0);
    }
  }

  /** Decoding the five entities gives the input back. */
  lemma {:induction false} UnescapeEscape(s: string)
    ensures Unescape(Escape(s)) == s
    decreases |s|
  {
    if s != [] {
      EscapeHead(s);
      UnescapeStep(s[0], Escape(s[1..]));
      UnescapeEscape(s[1..]);
      assert s == [s[0]] + s[1..];
    }
  }

  /** `escapeXml` is invertible: decoding its output gives the input back. */
  lemma EscapeXmlInvertible(s: string)
    ensures Unescape(EscapeXml(s)) == s
  {
    EscapeXmlIsEscape(s);
    UnescapeEscape(s);
  }

  /** An `&` is always escaped, also when it already starts an entity: `&amp;` becomes `&amp;amp;`. */
  lemma AmpersandAlwaysEscaped(s: string)
    ensures EscapeXml(['&'] + s) == "&amp;" + EscapeXml(s)
  {
    EscapeXmlConcat(['&'], s);
    EscapeXmlChar('&');
  }
}
