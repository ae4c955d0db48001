# Blog, feed and social-post logic of a portfolio site, in Dafny

This project models the text-processing core of a small portfolio site and
proves properties of it:

- **`parseFrontmatter`** (three identical copies, in `scripts/generate-rss.js`,
  `src/components/Blog.jsx` and `src/components/BlogPost.jsx`), modelled once
  in `frontmatter.dfy`. `Parse` is the specification. `ParseFrontmatter` is
  the loop the copies run, and it is proved to compute `Parse`. The call
  sites are modelled with `Parse`; the loops of `fetchPosts` and `loadPost`
  call `ParseFrontmatter` itself.
- **The RSS build script** (`rss.dfy`, `xml.dfy`, `posts.dfy`):
  - `escapeXml` as the chain of five global replacements, proved equal to a
    character-wise encoder, invertible, and free of raw markup;
  - the record pipeline: filter on `.md`, title test, slug rule, defaults,
    and a stable newest-first sort on an abstract date key;
  - the `<item>` and channel templates.
- **The blog listing** (`listing.dfy`): `fetchPosts` as a loop over the
  loaded files that pushes a card per titled post, then reverses.
- **The post page** (`lookup.dfy`): `loadPost` as a scan with an early
  return on the first file whose slug equals the route id or the decoded id.
  It falls through to a fixed error message.
- **The social-post generator** (`social.dfy`):
  - `parseOutput`, with its five regular expressions modelled by what they
    match;
  - the `CharCounter` over-limit test on UTF-16 length;
  - the empty-content guard, `topicLabel` and the `userPrompt` template of
    `generate`.
- **The feedback widget** (`feedback.dfy`): a class with the three state
  fields and the open, type, submit and close handlers, plus the five
  scenarios of its test file.

`text.dfy` holds the JavaScript string built-ins these rely on (`trim`,
`indexOf`, `split`, `replace` with a string pattern, `split('/').pop()`, and
the regex classes `\s` and `.`). `wrappers.dfy` holds `Option` and `Result`.

Environment inputs become parameters:

- the directory listing and file reads become a sequence of `(name, text)`
  entries;
- a bundled module's loader becomes an `Option` (`None` when it rejects);
- `encodeURIComponent` becomes a total function `encode`;
- `decodeURIComponent` becomes a partial function `decode` returning an
  `Option`;
- the `new Date(…)` comparison becomes an integer date key `dateKey`;
- `toRFC822` becomes a function `rfc822`;
- the build time becomes a string `buildDate`.

## Model

| member | source | states |
|---|---|---|
| Text.Trim | scripts/generate-rss.js:19-20 | the result has no whitespace at either end and is no longer than the input |
| Text.TrimSlice | scripts/generate-rss.js:19-20 | the result is one contiguous slice of the input, and everything cut off is whitespace |
| Text.TrimEmptyIffBlank | src/components/SocialPostGenerator.jsx:298 | `trim` gives the empty string exactly when the input is all whitespace |
| Text.TrimPadded | scripts/generate-rss.js:19-20 | trimming whitespace-padded non-blank trimmed text gives that text back |
| Text.TrimTrimmed | scripts/generate-rss.js:19-20 | already trimmed text is a fixed point of `trim` |
| Text.IndexOf | scripts/generate-rss.js:17 | -1 exactly when the character is absent; otherwise its first position |
| Text.Find | src/components/SocialPostGenerator.jsx:272-276 | -1 when the pattern occurs nowhere from `from` on; otherwise the first position where it occurs, letter case optionally ignored |
| Text.Upper | src/components/SocialPostGenerator.jsx:272-276 | an ASCII lower-case letter maps to the upper-case letter 32 code points below it; every other character to itself |
| Text.UpperAll | src/components/SocialPostGenerator.jsx:272-276 | upper-casing keeps the length and maps each character by `Upper` |
| Text.FindIgnoreCase | src/components/SocialPostGenerator.jsx:272-276 | a case-insensitive search finds the same position as a case-sensitive search of the upper-cased text for the upper-cased pattern |
| Text.Split | scripts/generate-rss.js:16 | at least one piece, no piece holds the separator, and joining the pieces restores the input |
| Text.SplitJoin | scripts/generate-rss.js:16 | splitting a join of separator-free pieces gives the pieces back |
| Text.RemoveFirst | scripts/generate-rss.js:60 | `replace('.md', '')` removes exactly the first occurrence, or nothing when there is none |
| Text.LastSegment | src/components/Blog.jsx:46 | `split('/').pop()` is the separator-free suffix after the last separator, or the whole text |
| Text.JoinSnoc | scripts/generate-rss.js:85 | joining one more piece appends the separator and that piece |
| Text.JoinEnds | scripts/generate-rss.js:85 | a join of pieces starts with the first piece and ends with the last |
| Frontmatter.CloseAt | scripts/generate-rss.js:11 | a header exists only if the text starts with `---\n`; its closer is the first `\n---` at index 4 or later |
| Frontmatter.StripQuotes | scripts/generate-rss.js:21-26 | one outer pair of matching quotes is removed; a lone quote becomes empty; other values are unchanged |
| Frontmatter.ParseLine | scripts/generate-rss.js:17-26 | no entry exactly when the line has no colon; otherwise the key is the trimmed text before the first colon and the value the trimmed, unquoted text after it |
| Frontmatter.StoreLine | scripts/generate-rss.js:17-28 | the `forEach` body writes exactly that line's entry into the map |
| Frontmatter.Parse | scripts/generate-rss.js:10-32 | without a header the whole text comes back with an empty map; with one the body is trimmed and shorter than the input; every key is trimmed and colon-free |
| Frontmatter.StoreLines | scripts/generate-rss.js:16-29 | the `forEach` over the lines builds the header map of the specification |
| Frontmatter.ParseFrontmatter | scripts/generate-rss.js:10-32 | the parser computes `Parse`; the copies at src/components/Blog.jsx:5-25 and src/components/BlogPost.jsx:8-27 are the same code |
| Frontmatter.LastWriteWins | scripts/generate-rss.js:16-28 | a key holds the value from the last line that sets it |
| Frontmatter.KeyAbsent | scripts/generate-rss.js:16-28 | a key that no line sets is absent, so lines without a colon add nothing |
| Frontmatter.NoOpeningNoHeader | scripts/generate-rss.js:11-12 | without a leading `---\n` the result is an empty map and the whole, untrimmed text |
| Frontmatter.NoClosingNoHeader | scripts/generate-rss.js:11-12 | without a later `\n---` the result is an empty map and the whole, untrimmed text |
| Frontmatter.HeaderBoundaries | scripts/generate-rss.js:11-31 | the header is exactly the text between `---\n` and the first `\n---`; the body is the rest after `---`, trimmed |
| Frontmatter.ParseRenderLine | scripts/generate-rss.js:17-27 | a `key: "value"` line parses back to its entry |
| Frontmatter.HeaderMapOfRendered | scripts/generate-rss.js:16-29 | rendered lines build the map of their entries, later entries winning |
| Frontmatter.RenderHasNoCloser | scripts/generate-rss.js:11 | a rendered header never holds the closing `\n---` |
| Frontmatter.HeaderRoundTrip | scripts/generate-rss.js:10-32 | parsing a rendered header in front of a body gives back the entries' map and the trimmed body |
| Xml.EscapeXml | scripts/generate-rss.js:41-48 | the output is never shorter than the input, and input free of the five characters is returned unchanged |
| Xml.EscapeChar | scripts/generate-rss.js:41-48 | each of the five characters becomes an `&…;` entity holding no further special character; any other character is kept |
| Xml.ReplaceAll | scripts/generate-rss.js:43-47 | after replacing every `c` by text without `c`, no `c` is left; input without `c` is unchanged |
| Xml.ReplaceAllConcat | scripts/generate-rss.js:43-47 | a global replacement works piece by piece |
| Xml.EscapeXmlConcat | scripts/generate-rss.js:41-48 | `escapeXml` of a concatenation is the concatenation of the escapes |
| Xml.EscapeXmlChar | scripts/generate-rss.js:41-48 | on one character the replacement chain gives exactly that character's entity |
| Xml.EscapeXmlIsEscape | scripts/generate-rss.js:41-48 | the chain of five replacements equals the character-wise encoder |
| Xml.NoRawMetacharacters | scripts/generate-rss.js:41-48 | the output holds no raw `<`, `>`, `"` or `'` |
| Xml.AmpersandsStartEntities | scripts/generate-rss.js:41-48 | every `&` of the output starts one of the five entities |
| Xml.AmpersandAlwaysEscaped | scripts/generate-rss.js:41-48 | an `&` is escaped even when an entity follows it, so existing entities are escaped again rather than kept |
| Xml.EscapeXmlInvertible | scripts/generate-rss.js:41-48 | decoding the five entities gives back the input |
| Xml.UnescapeEscape | scripts/generate-rss.js:41-48 | decoding inverts the character-wise encoder |
| Posts.FieldOr | scripts/generate-rss.js:64-66 | `data.key \|\| fallback` is the header value when present and non-empty, the fallback otherwise |
| Posts.ResolveSlug | scripts/generate-rss.js:60 | the slug is the header slug when non-empty, the fallback otherwise |
| Posts.NameSlugOfPlainName | scripts/generate-rss.js:60 | a name that holds `.md` only at its end loses exactly that suffix |
| Rss.Record | scripts/generate-rss.js:52-68 | a record exists exactly for `.md` files with a non-empty title; title, body, slug rule and `''` defaults |
| Rss.Records | scripts/generate-rss.js:54-70 | at most one record per file, and every record has a title |
| Rss.RecordsConcat | scripts/generate-rss.js:54-70 | files are processed independently and in order |
| Rss.RecordsMembers | scripts/generate-rss.js:54-70 | a post is a record exactly when some file yields it |
| Rss.InsertSpec | scripts/generate-rss.js:71 | inserting adds exactly one post and keeps a newest-first sequence sorted |
| Rss.SortByDate | scripts/generate-rss.js:71 | the sorted posts are a permutation of the input, ordered by non-increasing date key |
| Rss.InsertWithKey | scripts/generate-rss.js:71 | inserting a post puts it in front of the posts with its date key and leaves every other key's run alone |
| Rss.SortStable | scripts/generate-rss.js:71 | posts with equal date keys keep their directory order |
| Rss.FeedPostsSpec | scripts/generate-rss.js:54-71 | the feed's posts are exactly the records, all titled, newest first, ties in directory order |
| Rss.ItemOf | scripts/generate-rss.js:76-83 | link and guid are the same `SITE_URL/post/encode(slug)`; pubDate is `toRFC822(date)`; title, description and category are `escapeXml` of the post's title, excerpt and category, hold no raw `<`, `>`, `"` or `'`, every `&` in them starts an entity, and they decode back to the post's fields |
| Rss.RenderItem | scripts/generate-rss.js:76-83 | an item opens with its title element and closes with `</category>` and `</item>`; with no `<` in the title, the first `<` after `<title>` is that of `</title>` |
| Rss.ItemLayout | scripts/generate-rss.js:76-83 | the rendered item is exactly the template: title, link, guid with `isPermaLink="true"`, pubDate, description and category elements in that order, each on its own indented line |
| Rss.PostItem | scripts/generate-rss.js:74-83 | a post's item holds its escaped title, the same post URL as link and as guid, its formatted date, and its escaped excerpt and category |
| Rss.Items | scripts/generate-rss.js:74-85 | exactly one rendered item per post, in the posts' order |
| Rss.ItemsXml | scripts/generate-rss.js:74-85 | the items block is empty without posts; otherwise it starts with the first post's item and ends with the last post's |
| Rss.ItemsXmlSingle | scripts/generate-rss.js:74-85 | the block of a single post is exactly that post's item |
| Rss.ItemsXmlSnoc | scripts/generate-rss.js:74-85 | appending a post appends `\n` and that post's item, so with `Rss.ItemsXmlSingle` each post contributes exactly one item, in order |
| Rss.Feed | scripts/generate-rss.js:87-99 | the document opens with the XML declaration and ends with the items block, `</channel>`, `</rss>` and a final line break |
| Rss.ChannelText | scripts/generate-rss.js:90-92 | the channel title and description are escaped: no `<`, and they decode back to the site constants |
| Listing.Card | src/components/Blog.jsx:43-59 | a card exists exactly when the title is non-empty; slug rule; defaults `coding`, `Note` and `''`; title copied verbatim |
| Listing.Reverse | src/components/Blog.jsx:67 | the reversal has the same length, with element `i` taken from position `n-1-i` |
| Listing.FetchPosts | src/components/Blog.jsx:34-67 | the loop result is the reverse of the cards of the loaded, titled files in enumeration order |
| Listing.KeptConcat | src/components/Blog.jsx:37-64 | each file is processed independently and in order |
| Listing.FailedFileSkipped | src/components/Blog.jsx:38-63 | a file whose loader fails is skipped and every other file is still processed |
| Listing.Pushed | src/components/Blog.jsx:38-63 | a file pushes at most one card, exactly when its loader succeeds and its header has a title |
| Listing.PushedCard | src/components/Blog.jsx:43-60 | the card a file pushes is the one `Card` builds from that file's path and text |
| Listing.Kept | src/components/Blog.jsx:37-64 | at most one card per file, and every card has a non-empty title |
| Listing.KeptCards | src/components/Blog.jsx:37-64 | every card kept is the one `Card` builds from some loaded file |
| Listing.ListingShape | src/components/Blog.jsx:35-67 | the listing has at most as many cards as files, each titled and built by `Card` from one of the files |
| Listing.ReverseElements | src/components/Blog.jsx:67 | reversal keeps exactly the same elements |
| Lookup.SlugMatches | src/components/BlogPost.jsx:50 | a literal match needs no decoding; with an undecodable id only a literal match succeeds; otherwise the slug equals the id or the decoded id |
| Lookup.FirstMatch | src/components/BlogPost.jsx:41-64 | not found carries the fixed message; a shown post is the body of some matching file |
| Lookup.TryFile | src/components/BlogPost.jsx:42-57 | one iteration hits exactly when the loader succeeds and the slug equals the id or the decoded id; a hit carries the parsed body |
| Lookup.LoadPost | src/components/BlogPost.jsx:36-66 | the scan computes the first-match outcome |
| Lookup.FirstMatchSpec | src/components/BlogPost.jsx:41-61 | "not found", with its fixed message, exactly when no file in the whole set matches |
| Lookup.FirstMatchFound | src/components/BlogPost.jsx:41-54 | a shown post is the body of the first matching file in enumeration order |
| Lookup.UntitledFound | src/components/BlogPost.jsx:44-54 | a file without a title is still found by its slug, and the page shows its trimmed body |
| Lookup.SlugOnlyHeader | src/components/BlogPost.jsx:8-27 | a header that sets only `slug` parses to that one entry and the trimmed body |
| Social.SectionEnd | src/components/SocialPostGenerator.jsx:272-273 | the lazy capture stops at the first stop marker (any letter case) or at the end |
| Social.SectionStart | src/components/SocialPostGenerator.jsx:272-273 | -1 exactly when the marker is absent or no line break follows its first occurrence; otherwise just after the first line break following it |
| Social.SectionMatch | src/components/SocialPostGenerator.jsx:272-273 | no match exactly when the section has no start; a match captures the text from the start up to the first stop marker or the end, and holds no stop marker |
| Social.Section | src/components/SocialPostGenerator.jsx:277-278 | the field is trimmed, and empty when the marker is absent |
| Social.LineEnd | src/components/SocialPostGenerator.jsx:274-276 | `.+` reaches the first line terminator or the end |
| Social.FieldStart | src/components/SocialPostGenerator.jsx:274-276 | -1 exactly when the label is absent or only whitespace follows it; otherwise the first non-whitespace character after the first label occurrence, skipping line breaks too |
| Social.LineMatch | src/components/SocialPostGenerator.jsx:274-276 | no match exactly when the field has no start; a match captures the non-empty text from the start up to the first line terminator or the end |
| Social.LineField | src/components/SocialPostGenerator.jsx:279-281 | the field is trimmed, and empty when the label is absent |
| Social.FillResult | src/components/SocialPostGenerator.jsx:270-283 | filling the empty result field by field computes `ParseOutput` |
| Social.ParseOutput | src/components/SocialPostGenerator.jsx:270-283 | all five fields are trimmed, and each is empty when its label is missing |
| Social.SectionContents | src/components/SocialPostGenerator.jsx:272-278 | a section field is empty without a start, and otherwise the trimmed text from its start to its end |
| Social.LineFieldContents | src/components/SocialPostGenerator.jsx:274-281 | a line field is empty without a start, and otherwise the trimmed text from its start to the end of that line |
| Social.ParseOutputContents | src/components/SocialPostGenerator.jsx:270-283 | each of the five fields is `""` or the trimmed text of `raw` between its start and its end |
| Social.SectionsStopAtMarkers | src/components/SocialPostGenerator.jsx:272-273 | the Twitter/X field holds none of its four stop markers and the Threads field none of its four, in any letter case |
| Social.LineFieldOneLine | src/components/SocialPostGenerator.jsx:274-276 | hashtags, source and hook never hold a line terminator |
| Social.LineFieldPresent | src/components/SocialPostGenerator.jsx:274-281 | a line field is non-empty exactly when its label occurs and some non-whitespace character follows its first occurrence |
| Social.MarkersIgnoreCase | src/components/SocialPostGenerator.jsx:272-276 | for every answer, each marker and label is found case-insensitively where the upper-cased answer holds it |
| Social.Utf16Length | src/components/SocialPostGenerator.jsx:225 | `text.length` lies between the number of characters and twice that |
| Social.Utf16Concat | src/components/SocialPostGenerator.jsx:225 | lengths add up over concatenation |
| Social.BmpLength | src/components/SocialPostGenerator.jsx:225 | inside the Basic Multilingual Plane the count is the number of characters |
| Social.AstralLength | src/components/SocialPostGenerator.jsx:225 | a character outside the Basic Multilingual Plane counts two code units |
| Social.OverLimit | src/components/SocialPostGenerator.jsx:225-227 | more characters than the limit is over it; at most half the limit in characters is never over it |
| Social.OverLimitBounds | src/components/SocialPostGenerator.jsx:225-227 | text over the limit stays over it when text is appended |
| Social.CounterLimits | src/components/SocialPostGenerator.jsx:450-451 | inside the Basic Multilingual Plane, a Twitter/X post is over its limit exactly above 280 characters and a Threads post exactly above 500 |
| Social.TopicLabel | src/components/SocialPostGenerator.jsx:301 | the topic label is `customTopic` exactly when the topic is `"Custom"` |
| Social.UserPrompt | src/components/SocialPostGenerator.jsx:301-310 | the prompt opens with the request and the topic line, and ends with the key message, the URL line and the closing instruction |
| Social.PromptLayout | src/components/SocialPostGenerator.jsx:301-310 | the prompt is exactly the template: topic line, tone line, hook-type line, key-message heading and message, the optional URL line and the closing instruction, in that order |
| Social.Generate | src/components/SocialPostGenerator.jsx:298-310 | an error exactly when the content is all whitespace, with the fixed message; otherwise the prompt |
| Social.UrlLineInserted | src/components/SocialPostGenerator.jsx:308 | the `SOURCE URL:` line appears only for a non-empty URL, inserted between the key message and the closing instruction |
| Feedback.Texts | src/components/FeedbackButton.jsx:20-51 | "Give Feedback" is shown only by the button, "Your feedback:" only by the form, the thanks only by the confirmation |
| Feedback.Render | src/components/FeedbackButton.jsx:20-51 | the thanks exactly when submitted; the form, holding the message, exactly when open and not submitted; the button exactly when neither |
| Feedback.FeedbackButton.View | src/components/FeedbackButton.jsx:20-51 | in a reachable state the button shows exactly in the initial state |
| Feedback.FeedbackButton.constructor | src/components/FeedbackButton.jsx:4-6 | closed, not submitted, empty message; the button is shown |
| Feedback.FeedbackButton.Open | src/components/FeedbackButton.jsx:50 | only `isOpen` changes, and the empty form is shown |
| Feedback.FeedbackButton.Type | src/components/FeedbackButton.jsx:37 | the message becomes the typed text; nothing else changes |
| Feedback.FeedbackButton.Submit | src/components/FeedbackButton.jsx:8-12 | `submitted` is set and the message cleared; `isOpen` is unchanged; the thanks are shown |
| Feedback.FeedbackButton.Close | src/components/FeedbackButton.jsx:14-18 | from any state, all three fields return to the initial state |
| Feedback.RendersButton | src/components/FeedbackButton.test.jsx:7-10 | a fresh widget shows "Give Feedback" |
| Feedback.ClickOpensForm | src/components/FeedbackButton.test.jsx:12-21 | a click shows the label, Submit and Cancel |
| Feedback.SubmitShowsThanks | src/components/FeedbackButton.test.jsx:23-32 | open, type and submit show the thanks |
| Feedback.CancelCloses | src/components/FeedbackButton.test.jsx:34-42 | Cancel brings the button back |
| Feedback.RoundTrip | src/components/FeedbackButton.test.jsx:44-54 | open, type, submit and close return exactly to the initial state |

## Left out

- Dates: `toRFC822`, its fallback to the current time and `lastBuildDate` depend on free-form date parsing and the wall clock. They are the parameters `rfc822` and `buildDate`. The sort comparator is an integer date key, so NaN comparisons of invalid dates are not modelled.
- File system and console I/O of the build script (`readdirSync`, `readFileSync`, `writeFileSync`, `console.log`). The directory is the input sequence of entries, and the script's final write of the feed is not modelled.
- `encodeURIComponent` and `decodeURIComponent` are abstract parameters, not the ECMAScript algorithms.
- `import.meta.glob`, `async`/`await`, React state hooks and effects, JSX rendering, `ReactMarkdown` and `Link`. A loader is an `Option` whose `None` stands for a rejected promise caught by the loop's `try`/`catch`. The page's `loading`/`error` state becomes the `Outcome` value.
- The clipboard, platform detection, the fallback modal, copy-button timers and the chat API request of the social-post generator.
- The `CharCounter` progress bar and its 85% amber threshold use floating point. Only the integer over-limit test is modelled.
- The browser-enforced `required` attribute of the feedback text area. Submit is unconditional.
- Each feedback handler requires the screen that shows its control. Events the rendered view cannot produce are not modelled.
- `data["__proto__"] = value` has no effect on a plain JavaScript object. The model stores that key like any other. No reader of the map looks it up.
- Strings are sequences of Unicode scalar values. Only `Social.Utf16Length` counts UTF-16 code units. Text with unpaired surrogates is not modelled.
- `postsArray.reverse()` works in place. `Listing.FetchPosts` returns the reversed sequence as a value.
- Rss.Feed: the contract states how the document opens and ends, not every line of the channel template in between. The escaped channel texts are covered by `Rss.ChannelText`.
- Social.LineMatch: when only whitespace follows a label, the regex either fails or captures whitespace. The model treats both as no match. The trimmed field is empty either way, so the captured whitespace itself is not modelled.
- `vite.config.js`, `reminders-app/electron/main.cjs`, `Contact.jsx`, `Journey.jsx` and `App.jsx` are not part of this model (a dev proxy, a window bootstrap and static markup).
