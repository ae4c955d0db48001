/**
 * The text logic of src/components/SocialPostGenerator.jsx: `parseOutput`,
 * which cuts the model's labelled answer into five fields; the over-limit
 * test of `CharCounter`; and the input guard and prompt that `generate`
 * builds before it calls the chat API.
 *
 * The regular expressions of `parseOutput` are modelled by what they match:
 * the first case-insensitive occurrence of a label, and then either a
 * section that runs from the line after the label to the first stop marker
 * or the end of the text, or the rest of one line after skipping whitespace.
 */
module Social {
  import opened Text
  import opened Wrappers

  // ---- parseOutput ----

  /** The five fields of the parsed answer; a field whose label is missing is empty. */
  datatype Output = Output(twitter: string, threads: string, hashtags: string, source: string, hook: string)

  const TwitterMarker: string := "**TWITTER/X**"
  const ThreadsMarker: string := "**THREADS**"
  const HashtagsLabel: string := "**HASHTAGS USED:**"
  const SourceLabel: string := "**SOURCE:**"
  const HookLabel: string := "**HOOK TECHNIQUE:**"

  /** The lookahead alternatives that end the Twitter/X section. */
  const TwitterStops: seq<string> := ["**THREADS**", "**HASHTAGS", "**SOURCE", "**HOOK"]

  /** The lookahead alternatives that end the Threads section. */
  const ThreadsStops: seq<string> := ["**HASHTAGS", "**SOURCE", "**HOOK", "**TWITTER"]

  /** One of `stops` starts at index `k` of `s`, letter case ignored. */
  predicate StopAt(s: string, stops: seq<string>, k: nat) {
    exists i :: 0 <= i < |stops| && MatchesAt(s, stops[i], k, true)
  }

  /**
   * Where the lazy `([\s\S]*?)` followed by the lookahead stops: the first
   * index from `k` on where a stop marker starts, or the end of the text.
   */
  function SectionEnd(s: string, stops: seq<string>, k: nat): (e: nat)
    requires k <= |s|
    ensures k <= e <= |s|
    ensures e < |s| ==> StopAt(s, stops, e)
    ensures forall j: nat :: k <= j < e ==> !StopAt(s, stops, j)
    decreases |s| - k
  {
    if k == |s| then k
    else if StopAt(s, stops, k) then k
    else SectionEnd(s, stops, k + 1)
  }

  /**
   * Where a section's text begins: just after the first line break that
   * follows the first occurrence of the marker (letter case ignored), or -1
   * when the marker or that line break is missing (`[^\n]*\n` cannot match).
   */
  function SectionStart(raw: string, marker: string): (k: int)
    ensures k == -1 <==> var p := Find(raw, marker, 0, true);
      p == -1 || forall j :: p + |marker| <= j < |raw| ==> raw[j] != '\n'
    ensures k != -1 ==> var p := Find(raw, marker, 0, true);
      && 0 <= p && p + |marker| < k <= |raw| && raw[k - 1] == '\n'
      && forall j :: p + |marker| <= j < k - 1 ==> raw[j] != '\n'
  {
    var p := Find(raw, marker, 0, true);
    if p == -1 then -1
    else
      var n := Find(raw, "\n", p + |marker|, false);
      if n == -1 then
        assert forall j :: p + |marker| <= j < |raw| ==> raw[j] != '\n' by {
          forall j | p + |marker| <= j < |raw| ensures raw[j] != '\n' {
            assert !MatchesAt(raw, "\n", j, false);
            assert !SameChar(raw[j + 0], "\n"[0], false);
          }
        }
        -1
      else
        assert SameChar(raw[n + 0], "\n"[0], false);
        assert forall j :: p + |marker| <= j < n ==> raw[j] != '\n' by {
          forall j | p + |marker| <= j < n ensures raw[j] != '\n' {
            assert !MatchesAt(raw, "\n", j, false);
            assert !SameChar(raw[j + 0], "\n"[0], false);
          }
        }
        n + 1
  }

  /**
   * `raw.match(/\*\*MARKER\*\*[^\n]*\n([\s\S]*?)(?=STOPS|$)/i)`: the captured
   * group, from `SectionStart` to the first stop marker or the end of the
   * text, or no match without a start.
   */
  function SectionMatch(raw: string, marker: string, stops: seq<string>): (m: Option<string>)
    ensures m.None? <==> SectionStart(raw, marker) == -1
    ensures m.Some? ==> var k, g := SectionStart(raw, marker), m.value;
      && k + |g| <= |raw| && g == raw[k..k + |g|]
      && (forall j: nat :: k <= j < k + |g| ==> !StopAt(raw, stops, j))
      && (k + |g| < |raw| ==> StopAt(raw, stops, k + |g|))
  {
    var k := SectionStart(raw, marker);
    if k == -1 then None else Some(raw[k..SectionEnd(raw, stops, k)])
  }

  /** A section field: the trimmed capture, or empty without a match. */
  function Section(raw: string, marker: string, stops: seq<string>): (r: string)
    ensures Find(raw, marker, 0, true) == -1 ==> r == ""
    ensures IsTrimmed(r)
  {
    match SectionMatch(raw, marker, stops)
    case None => ""
    case Some(g) => Trim(g)
  }

  /** The first line terminator from `k` on, or the end: how far the greedy `.+` reaches. */
  function LineEnd(s: string, k: nat): (e: nat)
    requires k <= |s|
    ensures k <= e <= |s|
    ensures e < |s| ==> IsLineTerminator(s[e])
    ensures forall j :: k <= j < e ==> !IsLineTerminator(s[j])
    decreases |s| - k
  {
    if k == |s| || IsLineTerminator(s[k]) then k else LineEnd(s, k + 1)
  }

  /**
   * Where a line field's text begins: the first character that is not
   * whitespace after the first occurrence of the label (letter case
   * ignored), or -1 when the label is missing or only whitespace follows it.
   */
  function FieldStart(raw: string, heading: string): (q: int)
    ensures q == -1 <==> var p := Find(raw, heading, 0, true);
      p == -1 || forall i :: p + |heading| <= i < |raw| ==> IsWhitespace(raw[i])
    ensures q != -1 ==> var p := Find(raw, heading, 0, true);
      && 0 <= p && p + |heading| <= q < |raw| && !IsWhitespace(raw[q])
      && forall i :: p + |heading| <= i < q ==> IsWhitespace(raw[i])
  {
    var p := Find(raw, heading, 0, true);
    if p == -1 then -1
    else
      var q := SkipBlankFrom(raw, p + |heading|);
      if q == |raw| then -1 else q
  }

  /**
   * `raw.match(/\*\*LABEL\*\*\s*(.+)/i)`, up to whitespace around the
   * capture: after the label, whitespace (line breaks included) is skipped
   * and the capture is the rest of that line. When only whitespace follows
   * the label, the regex either fails or captures whitespace only; both are
   * no match here, since the field is empty either way.
   */
  function LineMatch(raw: string, heading: string): (m: Option<string>)
    ensures m.None? <==> FieldStart(raw, heading) == -1
    ensures m.Some? ==> var q, g := FieldStart(raw, heading), m.value;
      && q + |g| <= |raw| && g == raw[q..q + |g|] && g != []
      && (forall j :: q <= j < q + |g| ==> !IsLineTerminator(raw[j]))
      && (q + |g| < |raw| ==> IsLineTerminator(raw[q + |g|]))
  {
    var q := FieldStart(raw, heading);
    if q == -1 then None else Some(raw[q..LineEnd(raw, q)])
  }

  /** A line field: the trimmed capture, or empty without a match. */
  function LineField(raw: string, heading: string): (r: string)
    ensures Find(raw, heading, 0, true) == -1 ==> r == ""
    ensures IsTrimmed(r)
  {
    match LineMatch(raw, heading)
    case None => ""
    case Some(g) => Trim(g)
  }

  /** `parseOutput`: every field is trimmed, and a field whose label does not occur (in any letter case) is empty. */
  function ParseOutput(raw: string): (o: Output)
    ensures IsTrimmed(o.twitter) && IsTrimmed(o.threads) && IsTrimmed(o.hashtags) && IsTrimmed(o.source) && IsTrimmed(o.hook)
    ensures Find(raw, TwitterMarker, 0, true) == -1 ==> o.twitter == ""
    ensures Find(raw, ThreadsMarker, 0, true) == -1 ==> o.threads == ""
    ensures Find(raw, HashtagsLabel, 0, true) == -1 ==> o.hashtags == ""
    ensures Find(raw, SourceLabel, 0, true) == -1 ==> o.source == ""
    ensures Find(raw, HookLabel, 0, true) == -1 ==> o.hook == ""
  {
    Output(
      Section(raw, TwitterMarker, TwitterStops),
      Section(raw, ThreadsMarker, ThreadsStops),
      LineField(raw, HashtagsLabel),
      LineField(raw, SourceLabel),
      LineField(raw, HookLabel))
  }

  /**
   * The body of `parseOutput`: a result with five empty fields, each
   * overwritten with its trimmed capture when its pattern matches.
   */
  method FillResult(raw: string) returns (result: Output)
    ensures result == ParseOutput(raw)
  {
    result := Output("", "", "", "", "");
    var twitterMatch := SectionMatch(raw, TwitterMarker, TwitterStops);
    var threadsMatch := SectionMatch(raw, ThreadsMarker, ThreadsStops);
    var hashtagsMatch := LineMatch(raw, HashtagsLabel);
    var sourceMatch := LineMatch(raw, SourceLabel);
    var hookMatch := LineMatch(raw, HookLabel);
    if twitterMatch.Some? {
      result := result.(twitter := Trim(twitterMatch.value));
    }
    if threadsMatch.Some? {
      result := result.(threads := Trim(threadsMatch.value));
    }
    if hashtagsMatch.Some? {
      result := result.(hashtags := Trim(hashtagsMatch.value));
    }
    if sourceMatch.Some? {
      result := result.(source := Trim(sourceMatch.value));
    }
    if hookMatch.Some? {
      result := result.(hook := Trim(hookMatch.value));
    }
  }

  /** A section field is the trimmed text from the line after its marker up to the first stop marker or the end; empty without a start. */
  lemma SectionContents(raw: string, marker: string, stops: seq<string>)
    ensures var k := SectionStart(raw, marker);
      && (k == -1 ==> Section(raw, marker, stops) == "")
      && (k != -1 ==> Section(raw, marker, stops) == Trim(raw[k..SectionEnd(raw, stops, k)]))
  {
    var k := SectionStart(raw, marker);
    if k != -1 {
      var g := SectionMatch(raw, marker, stops).value;
      SectionEndAt(raw, stops, k, k + |g|);
    }
  }

  /** The end of a section is fixed by the stretch without a stop marker that precedes it. */
  lemma {:induction false} SectionEndAt(s: string, stops: seq<string>, k: nat, e: nat)
    requires k <= e <= |s|
    requires forall j: nat :: k <= j < e ==> !StopAt(s, stops, j)
    requires e < |s| ==> StopAt(s, stops, e)
    ensures SectionEnd(s, stops, k) == e
    decreases e - k
  {
    if k < e {
      SectionEndAt(s, stops, k + 1, e);
    }
  }

  /** A line field is the trimmed rest of the line from the first non-whitespace character after its label; empty without one. */
  lemma LineFieldContents(raw: string, heading: string)
    ensures var q := FieldStart(raw, heading);
      && (q == -1 ==> LineField(raw, heading) == "")
      && (q != -1 ==> LineField(raw, heading) == Trim(raw[q..LineEnd(raw, q)]))
  {
    var q := FieldStart(raw, heading);
    if q != -1 {
      var g := LineMatch(raw, heading).value;
      LineEndAt(raw, q, q + |g|);
    }
  }

  /** The end of a line is fixed by the run of non-terminators before it. */
  lemma {:induction false} LineEndAt(s: string, k: nat, e: nat)
    requires k <= e <= |s|
    requires forall j :: k <= j < e ==> !IsLineTerminator(s[j])
    requires e < |s| ==> IsLineTerminator(s[e])
    ensures LineEnd(s, k) == e
    decreases e - k
  {
    if k < e {
      LineEndAt(s, k + 1, e);
    }
  }

  /**
   * What each field of `parseOutput` holds: the Twitter/X and Threads fields
   * are the trimmed text from the line after their marker to the first of
   * their stop markers (or the end), the other three the trimmed rest of the
   * line from the first non-whitespace character after their label; a field
   * without a start is empty.
   */
  lemma ParseOutputContents(raw: string)
    ensures var o, k := ParseOutput(raw), SectionStart(raw, TwitterMarker);
      o.twitter == if k == -1 then "" else Trim(raw[k..SectionEnd(raw, TwitterStops, k)])
    ensures var o, k := ParseOutput(raw), SectionStart(raw, ThreadsMarker);
      o.threads == if k == -1 then "" else Trim(raw[k..SectionEnd(raw, ThreadsStops, k)])
    ensures var o, q := ParseOutput(raw), FieldStart(raw, HashtagsLabel);
      o.hashtags == if q == -1 then "" else Trim(raw[q..LineEnd(raw, q)])
    ensures var o, q := ParseOutput(raw), FieldStart(raw, SourceLabel);
      o.source == if q == -1 then "" else Trim(raw[q..LineEnd(raw, q)])
    ensures var o, q := ParseOutput(raw), FieldStart(raw, HookLabel);
      o.hook == if q == -1 then "" else Trim(raw[q..LineEnd(raw, q)])
  {
    SectionContents(raw, TwitterMarker, TwitterStops);
    SectionContents(raw, ThreadsMarker, ThreadsStops);
    LineFieldContents(raw, HashtagsLabel);
    LineFieldContents(raw, SourceLabel);
    LineFieldContents(raw, HookLabel);
  }

  /** A piece of `raw` has no match of `pat` where `raw` has none. */
  lemma NoMatchInPiece(raw: string, off: nat, r: string, pat: string, k: nat)
    requires off + |r| <= |raw| && forall j :: 0 <= j < |r| ==> r[j] == raw[off + j]
    requires !MatchesAt(raw, pat, off + k, true)
    ensures !MatchesAt(r, pat, k, true)
  {
    if k + |pat| <= |r| {
      var t :| 0 <= t < |pat| && !SameChar(raw[off + k + t], pat[t], true);
      assert r[k + t] == raw[off + k + t];
    }
  }

  /** The trimmed text of `s[lo..hi]` is a run of `s` inside that range. */
  lemma TrimmedPiece(s: string, lo: nat, hi: nat) returns (off: nat)
    requires lo <= hi <= |s|
    ensures var r := Trim(s[lo..hi]);
      lo <= off && off + |r| <= hi && forall j :: 0 <= j < |r| ==> r[j] == s[off + j]
  {
    var w := s[lo..hi];
    TrimWithin(w);
    off := lo + TrimOffset(w);
    PieceOf(s, lo, hi, TrimOffset(w), Trim(w), off);
  }

  /** A slice `r` of the stretch `s[lo..hi]`, taken at `i`, is the text of `s` from `off == lo + i`. */
  lemma PieceOf<T>(s: seq<T>, lo: nat, hi: nat, i: nat, r: seq<T>, off: nat)
    requires lo <= hi <= |s| && i + |r| <= hi - lo && r == s[lo..hi][i..i + |r|] && off == lo + i
    ensures lo <= off && off + |r| <= hi && forall j :: 0 <= j < |r| ==> r[j] == s[off + j]
  {
    SliceOfSlice(s, lo, hi, i, i + |r|);
  }

  /** Trimming a stretch of text in which no stop marker starts leaves no stop marker in it. */
  lemma TrimmedPieceHasNoStop(raw: string, stops: seq<string>, lo: nat, hi: nat)
    requires lo <= hi <= |raw|
    requires forall i :: 0 <= i < |stops| ==> stops[i] != ""
    requires forall j: nat :: lo <= j < hi ==> !StopAt(raw, stops, j)
    ensures forall i, k: nat :: 0 <= i < |stops| ==> !MatchesAt(Trim(raw[lo..hi]), stops[i], k, true)
  {
    var r := Trim(raw[lo..hi]);
    var off := TrimmedPiece(raw, lo, hi);
    forall i, k: nat | 0 <= i < |stops| ensures !MatchesAt(r, stops[i], k, true) {
      if k + |stops[i]| <= |r| {
        assert !StopAt(raw, stops, off + k);
        NoMatchInPiece(raw, off, r, stops[i], k);
      }
    }
  }

  /** A section never contains one of its stop markers, in any letter case. */
  lemma SectionHasNoStop(raw: string, marker: string, stops: seq<string>)
    requires forall i :: 0 <= i < |stops| ==> stops[i] != ""
    ensures var r := Section(raw, marker, stops);
      forall i, k: nat :: 0 <= i < |stops| ==> !MatchesAt(r, stops[i], k, true)
  {
    var k := SectionStart(raw, marker);
    if k != -1 {
      TrimmedPieceHasNoStop(raw, stops, k, SectionEnd(raw, stops, k));
    }
  }

  /** The Twitter/X field holds none of `**THREADS**`, `**HASHTAGS`, `**SOURCE`, `**HOOK`; the Threads field none of its stops. */
  lemma SectionsStopAtMarkers(raw: string)
    ensures var o := ParseOutput(raw);
      && (forall i, k: nat :: 0 <= i < |TwitterStops| ==> !MatchesAt(o.twitter, TwitterStops[i], k, true))
      && (forall i, k: nat :: 0 <= i < |ThreadsStops| ==> !MatchesAt(o.threads, ThreadsStops[i], k, true))
  {
    SectionHasNoStop(raw, TwitterMarker, TwitterStops);
    SectionHasNoStop(raw, ThreadsMarker, ThreadsStops);
  }

  /** A line field holds no line break: it never reaches past the label's line of text. */
  lemma LineFieldOneLine(raw: string, heading: string)
    ensures forall j :: 0 <= j < |LineField(raw, heading)| ==> !IsLineTerminator(LineField(raw, heading)[j])
  {
    var q := FieldStart(raw, heading);
    if q != -1 {
      var e := LineEnd(raw, q);
      var r := Trim(raw[q..e]);
      var off := TrimmedPiece(raw, q, e);
      forall j | 0 <= j < |r| ensures !IsLineTerminator(r[j]) {
        assert r[j] == raw[off + j];
      }
    }
  }

  /** A line field is empty exactly when its label is missing or only whitespace follows it. */
  lemma LineFieldPresent(raw: string, heading: string)
    ensures LineField(raw, heading) != "" <==> var p := Find(raw, heading, 0, true);
      p != -1 && exists i :: p + |heading| <= i < |raw| && !IsWhitespace(raw[i])
  {
    var q := FieldStart(raw, heading);
    if q != -1 {
      var e := LineEnd(raw, q);
      var w := raw[q..e];
      assert w[0] == raw[q];
      TrimEmptyIffBlank(w);
    }
  }

  /**
   * The markers and labels are found in any ASCII letter case: searching for
   * them is searching the upper-cased answer for them as written.
   */
  lemma MarkersIgnoreCase(raw: string)
    ensures Find(raw, TwitterMarker, 0, true) == Find(UpperAll(raw), TwitterMarker, 0, false)
    ensures Find(raw, ThreadsMarker, 0, true) == Find(UpperAll(raw), ThreadsMarker, 0, false)
    ensures Find(raw, HashtagsLabel, 0, true) == Find(UpperAll(raw), HashtagsLabel, 0, false)
    ensures Find(raw, SourceLabel, 0, true) == Find(UpperAll(raw), SourceLabel, 0, false)
    ensures Find(raw, HookLabel, 0, true) == Find(UpperAll(raw), HookLabel, 0, false)
  {
    MarkersUpperCase();
    UpperMarker(raw, TwitterMarker);
    UpperMarker(raw, ThreadsMarker);
    UpperMarker(raw, HashtagsLabel);
    UpperMarker(raw, SourceLabel);
    UpperMarker(raw, HookLabel);
  }

  /** The markers and labels hold no lower-case letter. */
  lemma MarkersUpperCase()
    ensures forall c :: c in TwitterMarker ==> !('a' <= c <= 'z')
    ensures forall c :: c in ThreadsMarker ==> !('a' <= c <= 'z')
    ensures forall c :: c in HashtagsLabel ==> !('a' <= c <= 'z')
    ensures forall c :: c in SourceLabel ==> !('a' <= c <= 'z')
    ensures forall c :: c in HookLabel ==> !('a' <= c <= 'z')
  {}

  /** A pattern without lower-case letters is found case-insensitively where the upper-cased text holds it. */
  lemma UpperMarker(raw: string, marker: string)
    requires forall c :: c in marker ==> !('a' <= c <= 'z')
    ensures Find(raw, marker, 0, true) == Find(UpperAll(raw), marker, 0, false)
  {
    UpperAllFixed(marker);
    FindIgnoreCase(raw, marker, 0);
  }

  // ---- CharCounter ----

  const TwitterLimit: nat := 280
  const ThreadsLimit: nat := 500

  /** `text.length`: UTF-16 code units, two for a character outside the Basic Multilingual Plane. */
  function Utf16Length(s: string): (n: nat)
    ensures |s| <= n <= 2 * |s|
  {
    if s == [] then 0 else (if s[0] as int >= 0x1_0000 then 2 else 1) + Utf16Length(s[1..])
  }

  /** A character outside the Basic Multilingual Plane counts two code units. */
  lemma AstralLength(c: char)
    requires c as int >= 0x1_0000
    ensures Utf16Length([c]) == 2
  {
  }

  /**
   * The counter shows its error colour exactly when the count exceeds the
   * limit: always with more characters than the limit, never with at most
   * half the limit in characters.
   */
  predicate OverLimit(text: string, limit: nat)
    ensures |text| > limit ==> OverLimit(text, limit)
    ensures 2 * |text| <= limit ==> !OverLimit(text, limit)
  {
    Utf16Length(text) > limit
  }

  /** Lengths add up over concatenation. */
  lemma {:induction false} Utf16Concat(a: string, b: string)
    ensures Utf16Length(a + b) == Utf16Length(a) + Utf16Length(b)
    decreases |a|
  {
    if a == [] {
      assert a + b == b;
    } else {
      assert (a + b)[0] == a[0];
      assert (a + b)[1..] == a[1..] + b;
      Utf16Concat(a[1..], b);
    }
  }

  /** Text that is over the limit stays over it whatever is appended. */
  lemma OverLimitBounds(a: string, b: string, limit: nat)
    ensures OverLimit(a, limit) ==> OverLimit(a + b, limit)
  {
    Utf16Concat(a, b);
  }

  /** For text inside the Basic Multilingual Plane the count is the number of characters. */
  lemma {:induction false} BmpLength(s: string)
    requires forall i :: 0 <= i < |s| ==> s[i] as int < 0x1_0000
    ensures Utf16Length(s) == |s|
    decreases |s|
  {
    if s != [] {
      BmpLength(s[1..]);
    }
  }

  /** The two counters `PostCard` shows: for text inside the Basic Multilingual Plane, over exactly past 280 characters (Twitter/X) and 500 (Threads). */
  lemma CounterLimits(s: string)
    requires forall i :: 0 <= i < |s| ==> s[i] as int < 0x1_0000
    ensures OverLimit(s, TwitterLimit) <==> |s| > 280
    ensures OverLimit(s, ThreadsLimit) <==> |s| > 500
  {
    BmpLength(s);
  }

  // ---- generate ----

  /** The inputs of the form. */
  datatype Form = Form(topic: string, customTopic: string, tone: string, hookType: string, content: string, url: string)

  const EmptyContentError: string := "Please enter your topic or key message."
  const PromptClosing: string := "\n\nGenerate both Twitter/X and Threads versions following all rules exactly."

  /** `topic === "Custom" ? customTopic : topic`. */
  function TopicLabel(f: Form): (name: string)
    ensures f.topic == "Custom" ==> name == f.customTopic
    ensures f.topic != "Custom" ==> name == f.topic
  {
    if f.topic == "Custom" then f.customTopic else f.topic
  }

  /** `url ? "\n\nSOURCE URL: " + url : ""`. */
  function UrlLine(url: string): string {
    if url == "" then "" else "\n\nSOURCE URL: " + url
  }

  const PromptIntro: string := "Create social media posts about the following:\n\nTOPIC CATEGORY: "

  /** The prompt up to and including the key message. */
  function PromptHead(topicLabel: string, tone: string, hookType: string, content: string): string {
    PromptIntro + (topicLabel + (PromptDetails(tone, hookType) + content))
  }

  /** The tone and hook lines and the heading of the key message. */
  function PromptDetails(tone: string, hookType: string): string {
    "\nDESIRED TONE: " + tone
    + "\nPREFERRED HOOK TYPE: " + hookType
    + "\nKEY MESSAGE / CONTENT:\n"
  }

  /**
   * `userPrompt`: it opens with the request and the topic line, and ends with
   * the key message, the URL line and the closing instruction, in that order.
   */
  function UserPrompt(f: Form): (p: string)
    ensures StartsWith(p, PromptIntro + TopicLabel(f))
    ensures EndsWith(p, f.content + UrlLine(f.url) + PromptClosing)
  {
    var opening, details := PromptIntro + TopicLabel(f), PromptDetails(f.tone, f.hookType);
    var tail := f.content + UrlLine(f.url) + PromptClosing;
    Regroup(PromptIntro, TopicLabel(f), details, f.content, UrlLine(f.url), PromptClosing);
    Sandwich(opening, details, tail);
    PromptHead(TopicLabel(f), f.tone, f.hookType, f.content) + UrlLine(f.url) + PromptClosing
  }

  /** The whole prompt, line by line as `userPrompt` writes it: every one of the form's inputs is in it, in this order. */
  lemma PromptLayout(f: Form)
    ensures UserPrompt(f) ==
      PromptIntro + TopicLabel(f)
      + "\nDESIRED TONE: " + f.tone
      + "\nPREFERRED HOOK TYPE: " + f.hookType
      + "\nKEY MESSAGE / CONTENT:\n" + f.content
      + UrlLine(f.url) + PromptClosing
  {
    PromptParts(PromptIntro, TopicLabel(f), "\nDESIRED TONE: ", f.tone, "\nPREFERRED HOOK TYPE: ", f.hookType,
      "\nKEY MESSAGE / CONTENT:\n", f.content, UrlLine(f.url), PromptClosing);
  }

  /** Regrouping the prompt's ten parts from the template's nesting to a flat left-to-right concatenation. */
  lemma PromptParts<T>(a: seq<T>, b: seq<T>, c: seq<T>, d: seq<T>, e: seq<T>, f: seq<T>, g: seq<T>,
                       h: seq<T>, i: seq<T>, j: seq<T>)
    ensures a + (b + ((c + d + e + f + g) + h)) + i + j == a + b + c + d + e + f + g + h + i + j
  {
  }

  /** Regrouping the six parts of the prompt around its opening, its middle and its tail. */
  lemma Regroup(i: string, l: string, m: string, c: string, u: string, z: string)
    ensures i + (l + (m + c)) + u + z == (i + l) + (m + (c + u + z))
  {}

  /** A three-part text starts with its first part and ends with its last. */
  lemma Sandwich(a: string, m: string, t: string)
    ensures StartsWith(a + (m + t), a) && EndsWith(a + (m + t), t)
  {
    ConcatParts(a, m + t);
    ConcatParts(m, t);
  }

  /** The guard of `generate`, then the prompt it sends: a whitespace-only key message is rejected with the fixed message; anything else yields the prompt. */
  function Generate(f: Form): (r: Result<string, string>)
    ensures r.Err? <==> IsBlank(f.content)
    ensures r.Err? ==> r.error == EmptyContentError
    ensures r.Ok? ==> r.value == UserPrompt(f)
  {
    TrimEmptyIffBlank(f.content);
    if Trim(f.content) == "" then Err(EmptyContentError) else Ok(UserPrompt(f))
  }

  /**
   * The URL only inserts its `SOURCE URL:` line between the key message and
   * the closing instruction: with an empty URL the prompt has no such line,
   * and otherwise it is the URL-less prompt with that line added there.
   */
  lemma UrlLineInserted(f: Form)
    ensures var base := UserPrompt(f.(url := ""));
      && |base| >= |PromptClosing|
      && (f.url == "" ==> UserPrompt(f) == base)
      && (f.url != "" ==>
            UserPrompt(f) == base[..|base| - |PromptClosing|] + "\n\nSOURCE URL: " + f.url + base[|base| - |PromptClosing|..])
  {
    var g := f.(url := "");
    var head := PromptHead(TopicLabel(f), f.tone, f.hookType, f.content);
    assert TopicLabel(g) == TopicLabel(f);
    var base := UserPrompt(g);
    assert base == head + "" + PromptClosing;
    assert base[..|base| - |PromptClosing|] == head;
    assert base[|base| - |PromptClosing|..] == PromptClosing;
    if f.url != "" {
      assert UserPrompt(f) == head + ("\n\nSOURCE URL: " + f.url) + PromptClosing;
    }
  }
}
