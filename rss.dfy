/**
 * The build script scripts/generate-rss.js: every `.md` file of the posts
 * directory is parsed, the files with a title become feed records (slug and
 * defaults resolved), the records are sorted newest first by their date, and
 * each becomes an RSS 2.0 `<item>` inside a fixed `<channel>`.
 *
 * The directory listing and the file reads are the input `files`; the date
 * parser behind `new Date(…)` is the parameter `dateKey`, `toRFC822` is the
 * parameter `rfc822`, `encodeURIComponent` is `encode` and the build time is
 * the string `buildDate`.
 */
module Rss {
  import opened Text
  import opened Wrappers
  import opened Frontmatter
  import opened Xml
  import opened Posts

  const SiteUrl: string := "https://stevemojica.github.io"
  const SiteTitle: string := "Steve Mojica | Blog & Portfolio"
  const SiteDescription: string := "Thoughts on coding, open-source work, AI, and professional IT life."

  /** A directory entry with the text read from it. */
  datatype DirEntry = DirEntry(name: string, text: string)

  /** One feed record. */
  datatype FeedPost = FeedPost(title: string, slug: string, date: string, excerpt: string, category: string, content: string)

  /** The text of one `<item>`'s elements, before they are put into the template. */
  datatype ItemText = ItemText(title: string, link: string, guid: string, pubDate: string, description: string, category: string)

  // ---- Records ----

  /**
   * The `map` callback. A record exists exactly for `.md` files with a
   * non-empty title. Its title and content come from the parse; its slug is
   * the header slug when that is non-empty and the file name without its
   * first `.md` otherwise; a date, excerpt or category the header lacks is
   * the empty string.
   */
  function Record(f: DirEntry): (r: Option<FeedPost>)
    ensures r.Some? <==> EndsWithMd(f.name) && Titled(Parse(f.text).data)
    ensures r.Some? ==>
      var data, p := Parse(f.text).data, r.value;
      && p.title == data["title"] && p.title != ""
      && p.content == Parse(f.text).content
      && (("slug" in data && data["slug"] != "") ==> p.slug == data["slug"])
      && (("slug" !in data || data["slug"] == "") ==> p.slug == NameSlug(f.name))
      && p.date == (if "date" in data then data["date"] else "")
      && p.excerpt == (if "excerpt" in data then data["excerpt"] else "")
      && p.category == (if "category" in data then data["category"] else "")
  {
    if !EndsWithMd(f.name) then None
    else
      var doc := Parse(f.text);
      if !Titled(doc.data) then None
      else Some(FeedPost(
        doc.data["title"],
        ResolveSlug(doc.data, NameSlug(f.name)),
        FieldOr(doc.data, "date", ""),
        FieldOr(doc.data, "excerpt", ""),
        FieldOr(doc.data, "category", ""),
        doc.content))
  }

  /** `xs.map(f).filter(Boolean)`: the present results of `f`, in order. */
  function Collect<A, B>(xs: seq<A>, f: A -> Option<B>): seq<B> {
    if xs == [] then []
    else (match f(xs[0]) case None => [] case Some(y) => [y]) + Collect(xs[1..], f)
  }

  /** `files.filter(endsWith .md).map(Record).filter(Boolean)`, in directory order: at most one record per file, each with a title. */
  function Records(files: seq<DirEntry>): (ps: seq<FeedPost>)
    ensures |ps| <= |files|
    ensures forall p :: p in ps ==> p.title != ""
  {
    CollectBound(files, Record);
    assert forall p :: p in Collect(files, Record) ==> p.title != "" by {
      forall p | p in Collect(files, Record) ensures p.title != "" {
        CollectMembers(files, Record, p);
      }
    }
    Collect(files, Record)
  }

  /** At most one result per element. */
  lemma {:induction false} CollectBound<A, B>(xs: seq<A>, f: A -> Option<B>)
    ensures |Collect(xs, f)| <= |xs|
    decreases |xs|
  {
    if xs != [] {
      CollectBound(xs[1..], f);
    }
  }

  /** Collecting over two runs is collecting over each, in order. */
  lemma {:induction false} CollectConcat<A, B>(a: seq<A>, b: seq<A>, f: A -> Option<B>)
    ensures Collect(a + b, f) == Collect(a, f) + Collect(b, f)
    decreases |a|
  {
    if a == [] {
      assert a + b == b;
    } else {
      assert (a + b)[0] == a[0];
      assert (a + b)[1..] == a[1..] + b;
      CollectConcat(a[1..], b, f);
    }
  }

  /** A value is collected exactly when some element yields it. */
  lemma {:induction false} CollectMembers<A, B>(xs: seq<A>, f: A -> Option<B>, y: B)
    ensures y in Collect(xs, f) <==> exists i :: 0 <= i < |xs| && f(xs[i]) == Some(y)
    decreases |xs|
  {
    if xs != [] {
      CollectMembers(xs[1..], f, y);
      if y in Collect(xs[1..], f) {
        var i :| 0 <= i < |xs[1..]| && f(xs[1..][i]) == Some(y);
        assert f(xs[i + 1]) == Some(y);
      }
      if exists i :: 0 <= i < |xs| && f(xs[i]) == Some(y) {
        var i :| 0 <= i < |xs| && f(xs[i]) == Some(y);
        if i > 0 {
          assert f(xs[1..][i - 1]) == Some(y);
        }
      }
    }
  }

  /** The records of two runs of files are the records of each, in order. */
  lemma RecordsConcat(a: seq<DirEntry>, b: seq<DirEntry>)
    ensures Records(a + b) == Records(a) + Records(b)
  {
    CollectConcat(a, b, Record);
  }

  /** A post is among the records exactly when some file yields it. */
  lemma RecordsMembers(files: seq<DirEntry>, p: FeedPost)
    ensures p in Records(files) <==> exists i :: 0 <= i < |files| && Record(files[i]) == Some(p)
  {
    CollectMembers(files, Record, p);
  }

  // ---- Sorting newest first ----

  /** Non-increasing date key: newest first. */
  predicate SortedByDate(ps: seq<FeedPost>, dateKey: string -> int) {
    forall i, j :: 0 <= i < j < |ps| ==> dateKey(ps[i].date) >= dateKey(ps[j].date)
  }

  /** The posts with date key `k`, in their order. */
  function WithKey(ps: seq<FeedPost>, dateKey: string -> int, k: int): seq<FeedPost> {
    if ps == [] then []
    else (if dateKey(ps[0].date) == k then [ps[0]] else []) + WithKey(ps[1..], dateKey, k)
  }

  /** Puts `p` after every post strictly newer than it and before the rest. */
  function Insert(p: FeedPost, ps: seq<FeedPost>, dateKey: string -> int): seq<FeedPost> {
    if ps == [] || dateKey(ps[0].date) <= dateKey(p.date) then [p] + ps
    else [ps[0]] + Insert(p, ps[1..], dateKey)
  }

  /** Inserting adds exactly `p`, and into a newest-first sequence it keeps the order. */
  lemma {:induction false} InsertSpec(p: FeedPost, ps: seq<FeedPost>, dateKey: string -> int)
    ensures multiset(Insert(p, ps, dateKey)) == multiset(ps) + multiset{p}
    ensures SortedByDate(ps, dateKey) ==> SortedByDate(Insert(p, ps, dateKey), dateKey)
    decreases |ps|
  {
    if ps == [] || dateKey(ps[0].date) <= dateKey(p.date) {
      InsertFront(p, ps, dateKey);
    } else {
      var rest := Insert(p, ps[1..], dateKey);
      InsertSpec(p, ps[1..], dateKey);
      InsertBehindUnfold(p, ps, dateKey);
      assert ps == [ps[0]] + ps[1..];
      InsertBehind(p, ps, rest, dateKey);
    }
  }

  /** Putting a post no older than the head in front keeps the order. */
  lemma InsertFront(p: FeedPost, ps: seq<FeedPost>, dateKey: string -> int)
    requires ps == [] || dateKey(ps[0].date) <= dateKey(p.date)
    ensures SortedByDate(ps, dateKey) ==> SortedByDate([p] + ps, dateKey)
  {
    if SortedByDate(ps, dateKey) && ps != [] {
      forall i, j | 0 <= i < j < |[p] + ps|
        ensures dateKey(([p] + ps)[i].date) >= dateKey(([p] + ps)[j].date)
      {
        if i == 0 && j > 1 {
          assert dateKey(ps[0].date) >= dateKey(ps[j - 1].date);
        }
      }
    }
  }

  /** Keeping an older head in front of the sorted insertion into the tail keeps the order. */
  lemma InsertBehind(p: FeedPost, ps: seq<FeedPost>, rest: seq<FeedPost>, dateKey: string -> int)
    requires ps != [] && dateKey(ps[0].date) > dateKey(p.date)
    requires multiset(rest) == multiset(ps[1..]) + multiset{p}
    requires SortedByDate(ps[1..], dateKey) ==> SortedByDate(rest, dateKey)
    ensures SortedByDate(ps, dateKey) ==> SortedByDate([ps[0]] + rest, dateKey)
  {
    if !SortedByDate(ps, dateKey) {
      return;
    }
    assert SortedByDate(ps[1..], dateKey) by {
      forall i, j | 0 <= i < j < |ps[1..]| ensures dateKey(ps[1..][i].date) >= dateKey(ps[1..][j].date) {
        assert ps[1..][i] == ps[i + 1] && ps[1..][j] == ps[j + 1];
      }
    }
    forall x | x in rest ensures dateKey(ps[0].date) >= dateKey(x.date) {
      assert x in multiset(rest);
      if x != p {
        assert x in multiset(ps[1..]);
        var j :| 0 <= j < |ps[1..]| && ps[1..][j] == x;
        assert ps[j + 1] == x;
      }
    }
    forall i, j | 0 <= i < j < |[ps[0]] + rest|
      ensures dateKey(([ps[0]] + rest)[i].date) >= dateKey(([ps[0]] + rest)[j].date)
    {
      if i == 0 {
        assert rest[j - 1] in rest;
      } else {
        assert ([ps[0]] + rest)[i] == rest[i - 1];
      }
    }
  }

  /**
   * `.sort((a, b) => new Date(b.date) - new Date(a.date))`, a stable sort
   * with the newest date key first.
   */
  function SortByDate(ps: seq<FeedPost>, dateKey: string -> int): (r: seq<FeedPost>)
    ensures multiset(r) == multiset(ps)
    ensures SortedByDate(r, dateKey)
  {
    if ps == [] then []
    else
      assert ps == [ps[0]] + ps[1..];
      InsertSpec(ps[0], SortByDate(ps[1..], dateKey), dateKey);
      Insert(ps[0], SortByDate(ps[1..], dateKey), dateKey)
  }

  /** Inserting `p` adds it in front of the posts sharing its key and changes no other key's run. */
  lemma {:induction false} InsertWithKey(p: FeedPost, ps: seq<FeedPost>, dateKey: string -> int, k: int)
    ensures WithKey(Insert(p, ps, dateKey), dateKey, k) ==
      (if dateKey(p.date) == k then [p] else []) + WithKey(ps, dateKey, k)
    decreases |ps|
  {
    var mine := if dateKey(p.date) == k then [p] else [];
    if ps == [] || dateKey(ps[0].date) <= dateKey(p.date) {
      var r := [p] + ps;
      assert Insert(p, ps, dateKey) == r;
      assert r[0] == p && r[1..] == ps;
      WithKeyHead(r, dateKey, k);
    } else {
      var rest := Insert(p, ps[1..], dateKey);
      var r := [ps[0]] + rest;
      InsertBehindUnfold(p, ps, dateKey);
      assert r[0] == ps[0] && r[1..] == rest;
      WithKeyHead(r, dateKey, k);
      WithKeyHead(ps, dateKey, k);
      InsertWithKey(p, ps[1..], dateKey, k);
      var head := if dateKey(ps[0].date) == k then [ps[0]] else [];
      var tail := WithKey(ps[1..], dateKey, k);
      if head == [] {
        assert head + (mine + tail) == mine + tail == mine + (head + tail);
      } else {
        assert mine == [];
        assert head + (mine + tail) == head + tail == mine + (head + tail);
      }
    }
  }

  /** Unfolding `Insert` past an older head. */
  lemma InsertBehindUnfold(p: FeedPost, ps: seq<FeedPost>, dateKey: string -> int)
    requires ps != [] && dateKey(ps[0].date) > dateKey(p.date)
    ensures Insert(p, ps, dateKey) == [ps[0]] + Insert(p, ps[1..], dateKey)
  {}

  /** Unfolding `WithKey` once. */
  lemma WithKeyHead(ps: seq<FeedPost>, dateKey: string -> int, k: int)
    requires ps != []
    ensures WithKey(ps, dateKey, k) == (if dateKey(ps[0].date) == k then [ps[0]] else []) + WithKey(ps[1..], dateKey, k)
  {}

  /** Stability: the posts sharing a date key keep their directory order. */
  lemma {:induction false} SortStable(ps: seq<FeedPost>, dateKey: string -> int, k: int)
    ensures WithKey(SortByDate(ps, dateKey), dateKey, k) == WithKey(ps, dateKey, k)
    decreases |ps|
  {
    if ps != [] {
      SortStable(ps[1..], dateKey, k);
      InsertWithKey(ps[0], SortByDate(ps[1..], dateKey), dateKey, k);
    }
  }

  /** The feed's posts: the records of the directory, newest first. */
  function FeedPosts(files: seq<DirEntry>, dateKey: string -> int): seq<FeedPost> {
    SortByDate(Records(files), dateKey)
  }

  /** The feed holds exactly the records (as a multiset), each titled, newest first, ties in directory order. */
  lemma FeedPostsSpec(files: seq<DirEntry>, dateKey: string -> int)
    ensures multiset(FeedPosts(files, dateKey)) == multiset(Records(files))
    ensures SortedByDate(FeedPosts(files, dateKey), dateKey)
    ensures forall p :: p in FeedPosts(files, dateKey) ==> p.title != ""
    ensures forall k :: WithKey(FeedPosts(files, dateKey), dateKey, k) == WithKey(Records(files), dateKey, k)
  {
    var ps := FeedPosts(files, dateKey);
    forall p | p in ps ensures p.title != "" {
      assert p in multiset(ps);
      assert p in multiset(Records(files));
    }
    forall k ensures WithKey(ps, dateKey, k) == WithKey(Records(files), dateKey, k) {
      SortStable(Records(files), dateKey, k);
    }
  }

  // ---- Items ----

  /** `${SITE_URL}/post/${encodeURIComponent(slug)}`. */
  function PostLink(slug: string, encode: string -> string): string {
    SiteUrl + "/post/" + encode(slug)
  }

  /**
   * The element texts of a post's item. Link and guid are the same URL; the
   * three free-text fields are `escapeXml` of the post's title, excerpt and
   * category, so they hold no raw markup character, every `&` in them starts
   * an entity, and they decode back to the post's own text.
   */
  function ItemOf(p: FeedPost, encode: string -> string, rfc822: string -> string): (it: ItemText)
    ensures it.link == it.guid == PostLink(p.slug, encode)
    ensures it.pubDate == rfc822(p.date)
    ensures it.title == EscapeXml(p.title) && it.description == EscapeXml(p.excerpt) && it.category == EscapeXml(p.category)
    ensures Escaped(it.title) && Escaped(it.description) && Escaped(it.category)
    ensures Unescape(it.title) == p.title && Unescape(it.description) == p.excerpt && Unescape(it.category) == p.category
  {
    AmpersandsStartEntities(p.title);
    AmpersandsStartEntities(p.excerpt);
    AmpersandsStartEntities(p.category);
    EscapeXmlInvertible(p.title);
    EscapeXmlInvertible(p.excerpt);
    EscapeXmlInvertible(p.category);
    NoRawMetacharacters(p.title);
    NoRawMetacharacters(p.excerpt);
    NoRawMetacharacters(p.category);
    var link := PostLink(p.slug, encode);
    ItemText(EscapeXml(p.title), link, link, rfc822(p.date), EscapeXml(p.excerpt), EscapeXml(p.category))
  }

  /**
   * The `<item>` template, indentation and line breaks as in the script. It
   * opens with the title element, and a title without `<` cannot end that
   * element early: the first `<` after `<title>` is the one of `</title>`.
   */
  function RenderItem(it: ItemText): (r: string)
    ensures StartsWith(r, ItemHead(it.title))
    ensures '<' !in it.title ==> IndexOf(r[|ItemOpen|..], '<') == |it.title|
    ensures EndsWith(r, ItemClose)
  {
    var head, tail := ItemHead(it.title), ItemTail(it);
    ConcatParts(head, tail);
    DropConcat(ItemOpen, it.title + "</title>", tail);
    SuffixConcat(head, ItemTailHead(it), ItemClose);
    assert '<' !in it.title ==> IndexOf((it.title + "</title>") + tail, '<') == |it.title| by {
      if '<' !in it.title {
        TagAfter(it.title, "</title>", tail);
      }
    }
    head + tail
  }

  /** The whole `<item>` element, line by line as the script writes it. */
  lemma ItemLayout(it: ItemText)
    ensures RenderItem(it) ==
      ItemOpen + it.title + "</title>"
      + "\n      <link>" + it.link
      + "</link>\n      <guid isPermaLink=\"true\">" + it.guid
      + "</guid>\n      <pubDate>" + it.pubDate
      + "</pubDate>\n      <description>" + it.description
      + "</description>\n      <category>" + it.category
      + ItemClose
  {
    var t := "\n      <link>";
    var u := "</link>\n      <guid isPermaLink=\"true\">";
    var v := "</guid>\n      <pubDate>";
    var w := "</pubDate>\n      <description>";
    var x := "</description>\n      <category>";
    Flatten(ItemOpen, it.title, "</title>", t, it.link, u, it.guid, v, it.pubDate, w, it.description, x, it.category, ItemClose);
  }

  /** Regrouping the item's fourteen parts from the template's nesting to a flat left-to-right concatenation. */
  lemma Flatten<T>(a: seq<T>, b: seq<T>, c: seq<T>, d: seq<T>, e: seq<T>, f: seq<T>, g: seq<T>,
                   h: seq<T>, i: seq<T>, j: seq<T>, k: seq<T>, l: seq<T>, m: seq<T>, n: seq<T>)
    ensures (a + (b + c)) + ((d + e + f + g + h + i + j + k + l + m) + n)
         == a + b + c + d + e + f + g + h + i + j + k + l + m + n
  {
  }

  /**
   * A post's item: its escaped title, the same post URL as link and as guid,
   * its formatted date, and its escaped excerpt and category.
   */
  lemma PostItem(p: FeedPost, encode: string -> string, rfc822: string -> string)
    ensures RenderItem(ItemOf(p, encode, rfc822)) ==
      ItemOpen + EscapeXml(p.title) + "</title>"
      + "\n      <link>" + PostLink(p.slug, encode)
      + "</link>\n      <guid isPermaLink=\"true\">" + PostLink(p.slug, encode)
      + "</guid>\n      <pubDate>" + rfc822(p.date)
      + "</pubDate>\n      <description>" + EscapeXml(p.excerpt)
      + "</description>\n      <category>" + EscapeXml(p.category)
      + ItemClose
  {
    ItemLayout(ItemOf(p, encode, rfc822));
  }

  const ItemOpen: string := "    <item>\n      <title>"
  const ItemClose: string := "</category>\n    </item>"

  /** The item up to the end of its title element. */
  function ItemHead(title: string): string {
    ItemOpen + (title + "</title>")
  }

  /** The item after its title element, up to its category text. */
  function ItemTailHead(it: ItemText): string {
    "\n      <link>" + it.link
    + "</link>\n      <guid isPermaLink=\"true\">" + it.guid
    + "</guid>\n      <pubDate>" + it.pubDate
    + "</pubDate>\n      <description>" + it.description
    + "</description>\n      <category>" + it.category
  }

  /** The item after its title element. */
  function ItemTail(it: ItemText): string {
    ItemTailHead(it) + ItemClose
  }

  /** In `t + x + y` with no `<` in `t` and `x` starting with `<`, the first `<` is right after `t`. */
  lemma TagAfter(t: string, x: string, y: string)
    requires '<' !in t && x != [] && x[0] == '<'
    ensures IndexOf((t + x) + y, '<') == |t|
  {
    var s := (t + x) + y;
    assert s[..|t|] == t;
    assert s[|t|] == x[0];
    IndexOfAt(s, '<', |t|);
  }

  /** Dropping the first part of a three-part concatenation. */
  lemma DropConcat(a: string, b: string, c: string)
    ensures ((a + b) + c)[|a|..] == b + c
  {
    assert (a + b) + c == a + (b + c);
    ConcatParts(a, b + c);
  }

  /** The last part of a three-part concatenation is its suffix. */
  lemma SuffixConcat(a: string, b: string, c: string)
    ensures EndsWith(a + (b + c), c)
  {
    assert a + (b + c) == (a + b) + c;
    ConcatParts(a + b, c);
  }

  /** One rendered item per post, in the posts' order. */
  function Items(posts: seq<FeedPost>, encode: string -> string, rfc822: string -> string): (items: seq<string>)
    ensures |items| == |posts|
    ensures forall i :: 0 <= i < |posts| ==> items[i] == RenderItem(ItemOf(posts[i], encode, rfc822))
  {
    seq(|posts|, i requires 0 <= i < |posts| => RenderItem(ItemOf(posts[i], encode, rfc822)))
  }

  /**
   * `posts.map(item).join('\n')`: empty without posts, otherwise opening with
   * the first post's item and closing with the last's. `ItemsXmlSingle` and
   * `ItemsXmlSnoc` give each post's item its exact place.
   */
  function ItemsXml(posts: seq<FeedPost>, encode: string -> string, rfc822: string -> string): (x: string)
    ensures posts == [] ==> x == ""
    ensures posts != [] ==> StartsWith(x, RenderItem(ItemOf(posts[0], encode, rfc822)))
    ensures posts != [] ==> EndsWith(x, RenderItem(ItemOf(posts[|posts| - 1], encode, rfc822)))
  {
    var items := Items(posts, encode, rfc822);
    if items == [] then ""
    else
      JoinEnds(items, "\n");
      Join(items, "\n")
  }

  /** The block of a single post is exactly that post's item. */
  lemma ItemsXmlSingle(p: FeedPost, encode: string -> string, rfc822: string -> string)
    ensures ItemsXml([p], encode, rfc822) == RenderItem(ItemOf(p, encode, rfc822))
  {
    assert Items([p], encode, rfc822)[0] == RenderItem(ItemOf(p, encode, rfc822));
  }

  /** Appending a post appends its item after a line break. */
  lemma ItemsXmlSnoc(posts: seq<FeedPost>, p: FeedPost, encode: string -> string, rfc822: string -> string)
    requires posts != []
    ensures ItemsXml(posts + [p], encode, rfc822) ==
      ItemsXml(posts, encode, rfc822) + "\n" + RenderItem(ItemOf(p, encode, rfc822))
  {
    ItemsSnoc(posts, p, encode, rfc822);
    JoinSnoc(Items(posts, encode, rfc822), RenderItem(ItemOf(p, encode, rfc822)), "\n");
  }

  /** Appending a post appends its item. */
  lemma ItemsSnoc(posts: seq<FeedPost>, p: FeedPost, encode: string -> string, rfc822: string -> string)
    ensures Items(posts + [p], encode, rfc822) == Items(posts, encode, rfc822) + [RenderItem(ItemOf(p, encode, rfc822))]
  {
    var items := Items(posts, encode, rfc822);
    var all := Items(posts + [p], encode, rfc822);
    forall i | 0 <= i < |items| ensures all[i] == items[i] {
      assert (posts + [p])[i] == posts[i];
    }
    SnocEqual(all, items, RenderItem(ItemOf(p, encode, rfc822)));
  }

  /** A sequence that agrees with `xs` and then holds `x` is `xs + [x]`. */
  lemma SnocEqual<T>(all: seq<T>, xs: seq<T>, x: T)
    requires |all| == |xs| + 1 && all[|xs|] == x
    requires forall i :: 0 <= i < |xs| ==> all[i] == xs[i]
    ensures all == xs + [x]
  {
    assert forall i :: 0 <= i < |all| ==> all[i] == (xs + [x])[i];
  }

  // ---- Channel ----

  const XmlDeclaration: string := "<?xml version=\"1.0\" encoding=\"UTF-8\" ?>"

  /** The lines of the document before the items block, given the escaped channel title and description. */
  function ChannelLines(title: string, description: string, buildDate: string): seq<string> {
    [ XmlDeclaration,
      "<rss version=\"2.0\" xmlns:atom=\"http://www.w3.org/2005/Atom\">",
      "  <channel>",
      "    <title>" + title + "</title>",
      "    <link>" + SiteUrl + "</link>",
      "    <description>" + description + "</description>",
      "    <language>en-us</language>",
      "    <lastBuildDate>" + buildDate + "</lastBuildDate>",
      "    <atom:link href=\"" + SiteUrl + "/feed.xml\" rel=\"self\" type=\"application/rss+xml\" />" ]
  }

  /** The lines after the items block; the last, empty one stands for the final line break. */
  const ClosingLines: seq<string> := ["  </channel>", "</rss>", ""]

  /** What follows the items block. */
  const FeedClose: string := "\n  </channel>\n</rss>\n"

  /**
   * The whole feed document: the channel's lines, the items block and the
   * closing lines, one per line. It opens with the XML declaration, and the
   * items block comes last, right before the closing `</channel>` and
   * `</rss>` and the final line break.
   */
  function Feed(posts: seq<FeedPost>, encode: string -> string, rfc822: string -> string, buildDate: string): (doc: string)
    ensures StartsWith(doc, XmlDeclaration)
    ensures EndsWith(doc, ItemsXml(posts, encode, rfc822) + FeedClose)
  {
    Document(EscapeXml(SiteTitle), EscapeXml(SiteDescription), buildDate, ItemsXml(posts, encode, rfc822))
  }

  /** The channel's lines, then the items block, then the closing lines, one per line. */
  function Document(title: string, description: string, buildDate: string, items: string): (doc: string)
    ensures StartsWith(doc, XmlDeclaration)
    ensures EndsWith(doc, items + FeedClose)
  {
    var head := ChannelLines(title, description, buildDate);
    var lines := head + ([items] + ClosingLines);
    JoinEnds(lines, "\n");
    assert lines[0] == XmlDeclaration;
    JoinConcat(head, [items] + ClosingLines, "\n");
    JoinConcat([items], ClosingLines, "\n");
    ClosingText();
    var h := Join(head, "\n") + "\n";
    assert Join(lines, "\n") == h + ((items + "\n") + Join(ClosingLines, "\n"));
    ConcatAssoc(items, "\n", Join(ClosingLines, "\n"));
    ConcatParts(h, items + FeedClose);
    Join(lines, "\n")
  }

  /** The closing lines joined: a line break then `FeedClose` without its first line break. */
  lemma ClosingText()
    ensures "\n" + Join(ClosingLines, "\n") == FeedClose
  {
    var rest := ClosingLines[1..];
    assert rest == ["</rss>", ""] && rest[1..] == [""];
    assert Join(rest, "\n") == "</rss>" + "\n" + "";
  }

  /** The channel's title and description are escaped: no markup, and they decode back to the site's constants. */
  lemma ChannelText()
    ensures Unescape(EscapeXml(SiteTitle)) == SiteTitle && Unescape(EscapeXml(SiteDescription)) == SiteDescription
    ensures '<' !in EscapeXml(SiteTitle) && '<' !in EscapeXml(SiteDescription)
  {
    EscapeXmlInvertible(SiteTitle);
    EscapeXmlInvertible(SiteDescription);
    NoRawMetacharacters(SiteTitle);
    NoRawMetacharacters(SiteDescription);
  }
}
