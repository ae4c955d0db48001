/**
 * The front-matter parser `parseFrontmatter`, which the RSS build script
 * (scripts/generate-rss.js), the blog listing (Blog.jsx) and the post page
 * (BlogPost.jsx) each carry an identical copy of. It is modelled once here:
 * `Parse` is the specification, `ParseFrontmatter` the loop the copies run,
 * and the three call sites use them.
 *
 * A header is recognised when the text starts with `---\n`; it ends at the
 * first later `\n---` (which need not end its line). Each header line is cut
 * at its first colon into a trimmed key and a trimmed value, one layer of
 * matching quotes is stripped from the value, and a later key overwrites an
 * earlier one. The body after the closing `---` is trimmed; a text with no
 * header is returned whole, untrimmed.
 */
module Frontmatter {
  import opened Text
  import opened Wrappers

  /** One parsed header line. */
  datatype Entry = Entry(key: string, value: string)

  /** The parser's result: the header's key/value map and the body. */
  datatype Document = Document(data: map<string, string>, content: string)

  const Opening: string := "---\n"
  const Closing: string := "\n---"

  /**
   * Where the header's closing `\n---` starts, or -1 when the text has no
   * header: the text must start with `---\n` and the closer is the first
   * `\n---` at index 4 or later (the match of `/^---\n([\s\S]*?)\n---/`).
   */
  function CloseAt(md: string): (j: int)
    ensures j != -1 ==>
      && MatchesAt(md, Opening, 0, false)
      && 4 <= j && MatchesAt(md, Closing, j, false)
      && forall k: nat :: 4 <= k < j ==> !MatchesAt(md, Closing, k, false)
    ensures j == -1 ==>
      || !MatchesAt(md, Opening, 0, false)
      || forall k: nat :: 4 <= k ==> !MatchesAt(md, Closing, k, false)
  {
    if MatchesAt(md, Opening, 0, false) then Find(md, Closing, 4, false) else -1
  }

  /** A value that starts and ends with the same quote character, `'` or `"` (a lone quote counts). */
  predicate Quoted(v: string) {
    |v| >= 1 && ((v[0] == '\'' && v[|v| - 1] == '\'') || (v[0] == '"' && v[|v| - 1] == '"'))
  }

  /**
   * `value.slice(1, -1)` when the value is quoted: exactly one outer pair of
   * matching quotes is removed (a lone quote becomes the empty string);
   * anything else is left as it is.
   */
  function StripQuotes(v: string): (r: string)
    ensures Quoted(v) && |v| >= 2 ==> [v[0]] + r + [v[0]] == v
    ensures Quoted(v) && |v| == 1 ==> r == []
    ensures !Quoted(v) ==> r == v
  {
    if Quoted(v) then (if |v| >= 2 then v[1..|v| - 1] else []) else v
  }

  /**
   * One header line: nothing when it has no colon; otherwise the trimmed
   * text before the first colon (so the key holds no colon) and the trimmed,
   * unquoted text after it.
   */
  function ParseLine(line: string): (e: Option<Entry>)
    ensures e.None? <==> ':' !in line
    ensures e.Some? ==> ':' !in e.value.key && IsTrimmed(e.value.key)
    ensures e.Some? ==> var colon := IndexOf(line, ':');
      e.value == Entry(Trim(line[..colon]), StripQuotes(Trim(line[colon + 1..])))
  {
    var colon := IndexOf(line, ':');
    if colon == -1 then None
    else
      ColonFreeKey(line[..colon]);
      Some(Entry(Trim(line[..colon]), StripQuotes(Trim(line[colon + 1..]))))
  }

  /** Trimming text without a colon leaves none. */
  lemma ColonFreeKey(w: string)
    requires ':' !in w
    ensures ':' !in Trim(w)
  {
    var key := Trim(w);
    TrimWithin(w);
    var i := TrimOffset(w);
    assert forall t :: 0 <= t < |key| ==> key[t] == w[i + t];
  }

  /** The key a header line sets, if any. */
  function KeyOf(line: string): Option<string> {
    match ParseLine(line)
    case None => None
    case Some(e) => Some(e.key)
  }

  /** Writing one parsed entry, if any, into `data`. */
  function Write(data: map<string, string>, pe: Option<Entry>): map<string, string> {
    match pe
    case None => data
    case Some(e) => data[e.key := e.value]
  }

  /** `data` after the `forEach` body has run on `line`. */
  function AddLine(data: map<string, string>, line: string): map<string, string> {
    Write(data, ParseLine(line))
  }

  /** Writing a parsed entry is a plain map update. */
  lemma AddLineEntry(data: map<string, string>, line: string, e: Entry)
    requires ParseLine(line) == Some(e)
    ensures AddLine(data, line) == data[e.key := e.value]
  {}

  /**
   * The map left by writing the entries `parse` yields for `lines`, in order.
   * The parser is a parameter so that facts about the order of the writes
   * are proved once, whatever a line holds.
   */
  function Writes(lines: seq<string>, parse: string -> Option<Entry>): map<string, string> {
    if lines == [] then map[] else Write(Writes(lines[..|lines| - 1], parse), parse(lines[|lines| - 1]))
  }

  /** The header map the `forEach` over `lines` builds, one write per line with a colon, in order. */
  function HeaderMap(lines: seq<string>): map<string, string> {
    Writes(lines, ParseLine)
  }

  /** Unfolding `HeaderMap` once: the last line is written after all the others. */
  lemma HeaderMapLast(lines: seq<string>)
    requires lines != []
    ensures HeaderMap(lines) == AddLine(HeaderMap(lines[..|lines| - 1]), lines[|lines| - 1])
  {}

  /**
   * The specification of `parseFrontmatter`: a text without a header comes
   * back whole with an empty map; otherwise the body is trimmed, and every
   * key is trimmed and holds no colon.
   */
  function Parse(md: string): (d: Document)
    ensures CloseAt(md) == -1 ==> d == Document(map[], md)
    ensures CloseAt(md) != -1 ==> IsTrimmed(d.content) && |d.content| < |md|
    ensures forall k :: k in d.data ==> ':' !in k && IsTrimmed(k)
  {
    var j := CloseAt(md);
    if j == -1 then Document(map[], md)
    else
      var lines := Split(md[4..j], '\n');
      WritesKeys(lines, ParseLine);
      Document(HeaderMap(lines), Trim(md[j + 4..]))
  }

  /** When every entry the lines yield has a trimmed, colon-free key, so has every key written. */
  lemma {:induction false} WritesKeys(lines: seq<string>, parse: string -> Option<Entry>)
    requires forall j :: 0 <= j < |lines| && parse(lines[j]).Some? ==>
      ':' !in parse(lines[j]).value.key && IsTrimmed(parse(lines[j]).value.key)
    ensures forall k :: k in Writes(lines, parse) ==> ':' !in k && IsTrimmed(k)
    decreases |lines|
  {
    if lines != [] {
      var n := |lines| - 1;
      var prefix := lines[..n];
      assert forall j :: 0 <= j < |prefix| ==> prefix[j] == lines[j];
      WritesKeys(prefix, parse);
    }
  }

  /**
   * The `forEach` callback: cut `line` at its first colon, trim both sides,
   * strip one layer of quotes from the value and write the entry into `data`.
   */
  method StoreLine(before: map<string, string>, line: string) returns (data: map<string, string>)
    ensures data == AddLine(before, line)
  {
    data := before;
    var colon := IndexOf(line, ':');
    if colon > -1 {
      var key := Trim(line[..colon]);
      var value := Trim(line[colon + 1..]);
      ghost var raw := value;
      if Quoted(value) {
        value := if |value| >= 2 then value[1..|value| - 1] else [];
      }
      assert value == StripQuotes(raw);
      AddLineEntry(before, line, Entry(key, value));
      data := data[key := value];
    }
  }

  /** The `forEach` over the header lines, writing each line's entry into `data` in turn. */
  method StoreLines(lines: seq<string>) returns (data: map<string, string>)
    ensures data == HeaderMap(lines)
  {
    data := map[];
    var i := 0;
    while i < |lines|
      invariant 0 <= i <= |lines|
      invariant data == HeaderMap(lines[..i])
    {
      data := StoreLine(data, lines[i]);
      HeaderMapStep(lines, i);
      i := i + 1;
    }
    HeaderMapWhole(lines);
  }

  /**
   * `parseFrontmatter` as the source runs it: find the header, then walk its
   * lines writing each entry into `data`. It computes `Parse`.
   */
  method ParseFrontmatter(markdown: string) returns (doc: Document)
    ensures doc == Parse(markdown)
  {
    var close := CloseAt(markdown);
    if close == -1 {
      return Document(map[], markdown);
    }
    var data := StoreLines(Split(markdown[4..close], '\n'));
    doc := Document(data, Trim(markdown[close + 4..]));
  }

  // ---- Properties of the header map ----

  /** The parsed entry, if any, sets `key`. */
  predicate Sets(pe: Option<Entry>, key: string) {
    pe.Some? && pe.value.key == key
  }

  /**
   * Last write wins: the value stored under a key is the one from the last
   * line that sets it.
   */
  lemma LastWriteWins(lines: seq<string>, i: nat, e: Entry)
    requires i < |lines| && ParseLine(lines[i]) == Some(e)
    requires forall j :: i < j < |lines| ==> KeyOf(lines[j]) != Some(e.key)
    ensures e.key in HeaderMap(lines) && HeaderMap(lines)[e.key] == e.value
  {
    forall j | i < j < |lines| ensures !Sets(ParseLine(lines[j]), e.key) {
      assert KeyOf(lines[j]) != Some(e.key);
    }
    WritesLastWins(lines, ParseLine, |lines|, i, e);
    assert lines[..|lines|] == lines;
  }

  /** Taking all the lines is taking the lines. */
  lemma HeaderMapWhole(lines: seq<string>)
    ensures HeaderMap(lines[..|lines|]) == HeaderMap(lines)
  {
    assert lines[..|lines|] == lines;
  }

  /** The map of the first `i + 1` lines is the map of the first `i` with line `i` written last. */
  lemma HeaderMapStep(lines: seq<string>, i: nat)
    requires i < |lines|
    ensures HeaderMap(lines[..i + 1]) == AddLine(HeaderMap(lines[..i]), lines[i])
  {
    HeaderMapLast(lines[..i + 1]);
    PrefixStep(lines, i + 1);
  }

  /** The first `m - 1` lines of the first `m`, and the last of them. */
  lemma PrefixStep<T>(lines: seq<T>, m: nat)
    requires 0 < m <= |lines|
    ensures lines[..m][..m - 1] == lines[..m - 1] && lines[..m][m - 1] == lines[m - 1]
  {}

  /** Last write wins for the first `m` lines, by induction on `m`. */
  lemma {:induction false} WritesLastWins(lines: seq<string>, parse: string -> Option<Entry>, m: nat, i: nat, e: Entry)
    requires i < m <= |lines| && parse(lines[i]) == Some(e)
    requires forall j :: i < j < |lines| ==> !Sets(parse(lines[j]), e.key)
    ensures e.key in Writes(lines[..m], parse) && Writes(lines[..m], parse)[e.key] == e.value
    decreases m
  {
    PrefixStep(lines, m);
    var before := Writes(lines[..m - 1], parse);
    assert Writes(lines[..m], parse) == Write(before, parse(lines[m - 1]));
    if i < m - 1 {
      WritesLastWins(lines, parse, m - 1, i, e);
      assert !Sets(parse(lines[m - 1]), e.key);
    }
  }

  /** A key that no line sets is absent from the map; lines without a colon add nothing. */
  lemma KeyAbsent(lines: seq<string>, key: string)
    requires forall j :: 0 <= j < |lines| ==> KeyOf(lines[j]) != Some(key)
    ensures key !in HeaderMap(lines)
  {
    forall j | 0 <= j < |lines| ensures !Sets(ParseLine(lines[j]), key) {
      assert KeyOf(lines[j]) != Some(key);
    }
    WritesAbsent(lines, ParseLine, key);
  }

  /** A key that no parsed line sets is never written. */
  lemma {:induction false} WritesAbsent(lines: seq<string>, parse: string -> Option<Entry>, key: string)
    requires forall j :: 0 <= j < |lines| ==> !Sets(parse(lines[j]), key)
    ensures key !in Writes(lines, parse)
    decreases |lines|
  {
    if lines != [] {
      var n := |lines| - 1;
      var prefix := lines[..n];
      forall j | 0 <= j < |prefix| ensures !Sets(parse(prefix[j]), key) {
        assert prefix[j] == lines[j];
      }
      WritesAbsent(prefix, parse, key);
      assert !Sets(parse(lines[n]), key);
    }
  }

  // ---- Header and body boundaries ----

  /** A text that does not start with `---\n` has no header: empty map, whole text as body, untrimmed. */
  lemma NoOpeningNoHeader(md: string)
    requires !MatchesAt(md, Opening, 0, false)
    ensures Parse(md) == Document(map[], md)
  {}

  /** A text whose opening `---\n` is never closed has no header either. */
  lemma NoClosingNoHeader(md: string)
    requires forall k: nat :: 4 <= k ==> !MatchesAt(md, Closing, k, false)
    ensures Parse(md) == Document(map[], md)
  {}

  /**
   * For a header text `h` holding no `\n---`, the header of
   * `---\n` + h + `\n---` + rest is exactly `h` and the body is `rest`
   * trimmed, whatever `rest` holds (including further `\n---`).
   */
  lemma HeaderBoundaries(h: string, rest: string)
    requires Find(h, Closing, 0, false) == -1
    ensures Parse(Opening + h + Closing + rest) == Document(HeaderMap(Split(h, '\n')), Trim(rest))
  {
    var md := Opening + h + Closing + rest;
    var j := 4 + |h|;
    assert md[..4] == Opening && md[4..j] == h && md[j..j + 4] == Closing && md[j + 4..] == rest;
    assert MatchesAt(md, Opening, 0, false);
    assert MatchesAt(md, Closing, j, false);
    forall k: nat | 4 <= k < j ensures !MatchesAt(md, Closing, k, false) {
      if k + 4 <= j {
        assert !MatchesAt(h, Closing, k - 4, false);
        assert forall x :: 4 <= x < j ==> md[x] == h[x - 4];
      } else {
        assert md[k + (j - k)] == '\n';
        assert !SameChar(md[k + (j - k)], Closing[j - k], false);
      }
    }
    assert CloseAt(md) == j;
  }

  // ---- Serialising a header and parsing it back ----

  /** An entry a header line can carry: a non-empty trimmed key without colon, newline or leading dash, and a one-line value. */
  predicate WellFormed(e: Entry) {
    && e.key != [] && IsTrimmed(e.key) && ':' !in e.key && '\n' !in e.key && e.key[0] != '-'
    && '\n' !in e.value
  }

  /** The header line `key: "value"`. */
  function RenderLine(e: Entry): string {
    e.key + ": \"" + e.value + "\""
  }

  function RenderLines(es: seq<Entry>): (ls: seq<string>)
    ensures |ls| == |es| && forall i :: 0 <= i < |es| ==> ls[i] == RenderLine(es[i])
  {
    seq(|es|, i requires 0 <= i < |es| => RenderLine(es[i]))
  }

  /** A header block's text: one rendered line per entry, newline-separated. */
  function Render(es: seq<Entry>): string {
    Join(RenderLines(es), "\n")
  }

  /** The map a sequence of entries denotes when later entries override earlier ones. */
  function EntriesMap(es: seq<Entry>): map<string, string> {
    if es == [] then map[] else EntriesMap(es[..|es| - 1])[es[|es| - 1].key := es[|es| - 1].value]
  }

  /** One entry denotes the one-key map. */
  lemma EntriesMapSingle(e: Entry)
    ensures EntriesMap([e]) == map[e.key := e.value]
  {
    assert [e][..0] == [];
  }

  /** The value part of a rendered line, ` "value"`, trims and unquotes back to the value. */
  lemma UnquoteRendered(v: string)
    ensures StripQuotes(Trim(" \"" + v + "\"")) == v
  {
    var q := "\"" + v + "\"";
    assert " \"" + v + "\"" == [' '] + q + [];
    TrimPadded([' '], q, []);
    QuotedValue(v);
  }

  /** `"value"` is quoted, and unquoting it gives the value back. */
  lemma QuotedValue(v: string)
    ensures var q := "\"" + v + "\""; Quoted(q) && StripQuotes(q) == v
  {
    var q := "\"" + v + "\"";
    assert q[0] == '"' && q[|q| - 1] == '"';
    assert q[1..|q| - 1] == v;
  }

  /** A rendered line parses back to its entry, quotes and all. */
  lemma ParseRenderLine(e: Entry)
    requires WellFormed(e)
    ensures ParseLine(RenderLine(e)) == Some(e)
  {
    var line := RenderLine(e);
    var k := |e.key|;
    assert line[..k] == e.key;
    assert line[k + 1..] == " \"" + e.value + "\"";
    IndexOfAt(line, ':', k);
    TrimTrimmed(e.key);
    UnquoteRendered(e.value);
  }

  lemma {:induction false} HeaderMapOfRendered(es: seq<Entry>)
    requires forall i :: 0 <= i < |es| ==> WellFormed(es[i])
    ensures HeaderMap(RenderLines(es)) == EntriesMap(es)
    decreases |es|
  {
    if es != [] {
      var n := |es| - 1;
      assert RenderLines(es)[..n] == RenderLines(es[..n]);
      HeaderMapOfRendered(es[..n]);
      ParseRenderLine(es[n]);
      AddLineEntry(HeaderMap(RenderLines(es[..n])), RenderLine(es[n]), es[n]);
    }
  }

  lemma JoinStartsWithFirst(parts: seq<string>, sep: string)
    requires |parts| >= 1
    ensures |parts[0]| <= |Join(parts, sep)| && Join(parts, sep)[..|parts[0]|] == parts[0]
  {}

  /** Every newline of a rendered header is followed by the first character of a key, never by `-`. */
  lemma {:induction false} RenderedNewlines(es: seq<Entry>)
    requires forall i :: 0 <= i < |es| ==> WellFormed(es[i])
    ensures var r := Render(es); forall k :: 0 <= k < |r| && r[k] == '\n' ==> k + 1 < |r| && r[k + 1] != '-'
    decreases |es|
  {
    if |es| > 1 {
      var lines := RenderLines(es);
      var l, r' := lines[0], Render(es[1..]);
      assert RenderLines(es[1..]) == lines[1..];
      assert Render(es) == l + "\n" + r';
      RenderedNewlines(es[1..]);
      JoinStartsWithFirst(lines[1..], "\n");
      assert r'[0] == RenderLine(es[1])[0] == es[1].key[0];
      RenderLineOneLine(es[0]);
      NewlinesJoined(l, r');
    } else if |es| == 1 {
      assert Render(es) == RenderLine(es[0]);
      RenderLineOneLine(es[0]);
    }
  }

  /** Joining a newline-free line to a text whose newlines are all followed by a non-dash, itself starting with a non-dash, keeps that property. */
  lemma NewlinesJoined(l: string, r': string)
    requires forall k :: 0 <= k < |l| ==> l[k] != '\n'
    requires r' != [] && r'[0] != '-'
    requires forall k :: 0 <= k < |r'| && r'[k] == '\n' ==> k + 1 < |r'| && r'[k + 1] != '-'
    ensures var r := l + "\n" + r'; forall k :: 0 <= k < |r| && r[k] == '\n' ==> k + 1 < |r| && r[k + 1] != '-'
  {
    var r := l + "\n" + r';
    assert forall k :: 0 <= k < |l| ==> r[k] == l[k];
    forall k | 0 <= k < |r| && r[k] == '\n' ensures k + 1 < |r| && r[k + 1] != '-' {
      if k > |l| {
        assert r[k] == r'[k - |l| - 1];
      }
    }
  }

  /** A rendered line of a well-formed entry holds no newline. */
  lemma RenderLineOneLine(e: Entry)
    requires WellFormed(e)
    ensures forall k :: 0 <= k < |RenderLine(e)| ==> RenderLine(e)[k] != '\n'
  {
    var r := RenderLine(e);
    forall k | 0 <= k < |r| ensures r[k] != '\n' {
      assert r[k] in r;
    }
  }

  /** A rendered header never contains the closing delimiter. */
  lemma RenderHasNoCloser(es: seq<Entry>)
    requires forall i :: 0 <= i < |es| ==> WellFormed(es[i])
    ensures Find(Render(es), Closing, 0, false) == -1
  {
    var h := Render(es);
    RenderedNewlines(es);
    forall k: nat ensures !MatchesAt(h, Closing, k, false) {
      if k + 4 <= |h| {
        if h[k] == '\n' {
          assert !SameChar(h[k + 1], Closing[1], false);
        } else {
          assert !SameChar(h[k + 0], Closing[0], false);
        }
      }
    }
  }

  /** The lines of a rendered header parse to the entries' map. */
  lemma RenderedHeaderMap(es: seq<Entry>)
    requires forall i :: 0 <= i < |es| ==> WellFormed(es[i])
    ensures HeaderMap(Split(Render(es), '\n')) == EntriesMap(es)
  {
    if es == [] {
      EmptyHeaderMap();
    } else {
      RenderedLinesSingle(es);
      SplitJoin(RenderLines(es), '\n');
      HeaderMapOfRendered(es);
    }
  }

  /** An empty header is one empty line, which sets nothing. */
  lemma EmptyHeaderMap()
    ensures HeaderMap(Split(Render([]), '\n')) == map[]
  {
    assert Render([]) == "";
    assert Split("", '\n') == [""];
    assert HeaderMap([""]) == AddLine(HeaderMap([]), "");
  }

  /** Each rendered line of well-formed entries is free of newlines. */
  lemma RenderedLinesSingle(es: seq<Entry>)
    requires forall i :: 0 <= i < |es| ==> WellFormed(es[i])
    ensures forall i :: 0 <= i < |es| ==> '\n' !in RenderLines(es)[i]
  {
    var lines := RenderLines(es);
    forall i | 0 <= i < |lines| ensures '\n' !in lines[i] {
      assert lines[i] == es[i].key + ": \"" + es[i].value + "\"";
    }
  }

  /**
   * Round trip: serialising well-formed entries as a header block in front of
   * a body and parsing the result gives back the entries' map (later
   * entries winning) and the trimmed body.
   */
  lemma HeaderRoundTrip(es: seq<Entry>, body: string)
    requires forall i :: 0 <= i < |es| ==> WellFormed(es[i])
    ensures Parse(Opening + Render(es) + Closing + body) == Document(EntriesMap(es), Trim(body))
  {
    RenderHasNoCloser(es);
    HeaderBoundaries(Render(es), body);
    RenderedHeaderMap(es);
  }
}
