/**
 * The blog listing, `fetchPosts` in src/components/Blog.jsx: every bundled
 * post file is loaded and parsed in enumeration order; a file whose header
 * has a title becomes a card (slug from the header or the path, listing
 * defaults for the other fields); a file whose loader fails is skipped; and
 * the collected cards are reversed. No date sort is applied.
 */
module Listing {
  import opened Wrappers
  import opened Text
  import opened Frontmatter
  import opened Posts

  /** One card of the listing; `tag` is the card's `label` (a reserved word in Dafny). */
  datatype ListingPost = ListingPost(slug: string, category: string, tag: string, date: string, readTime: string, title: string, excerpt: string)

  /**
   * The card a loaded file yields. A card exists exactly when the header has
   * a non-empty title, which is copied verbatim; the slug is the header slug
   * when non-empty and the path's last segment without its first `.md`
   * otherwise; an absent or empty category is `coding`, label `Note`, and
   * date, read time and excerpt the empty string.
   */
  function Card(path: string, text: string): (c: Option<ListingPost>)
    ensures c.Some? <==> Titled(Parse(text).data)
    ensures c.Some? ==>
      var data := Parse(text).data;
      && c.value.title == data["title"] && c.value.title != ""
      && (("slug" in data && data["slug"] != "") ==> c.value.slug == data["slug"])
      && (("slug" !in data || data["slug"] == "") ==> c.value.slug == PathSlug(path))
      && (("category" !in data || data["category"] == "") ==> c.value.category == "coding")
      && ("category" in data && data["category"] != "" ==> c.value.category == data["category"])
      && (("label" !in data || data["label"] == "") ==> c.value.tag == "Note")
      && ("label" in data && data["label"] != "" ==> c.value.tag == data["label"])
      && c.value.date == (if "date" in data then data["date"] else "")
      && c.value.readTime == (if "readTime" in data then data["readTime"] else "")
      && c.value.excerpt == (if "excerpt" in data then data["excerpt"] else "")
  {
    var data := Parse(text).data;
    if !Titled(data) then None
    else Some(ListingPost(
      ResolveSlug(data, PathSlug(path)),
      FieldOr(data, "category", "coding"),
      FieldOr(data, "label", "Note"),
      FieldOr(data, "date", ""),
      FieldOr(data, "readTime", ""),
      data["title"],
      FieldOr(data, "excerpt", "")))
  }

  /** What one file adds to `postsArray`: nothing when its loader fails or it has no title, otherwise its one titled card. */
  function Pushed(f: SourceFile): (s: seq<ListingPost>)
    ensures |s| <= 1
    ensures forall c :: c in s ==> c.title != "" && s == [c]
    ensures s != [] <==> f.load.Some? && Titled(Parse(f.load.value).data)
  {
    match f.load
    case None => []
    case Some(text) => (match Card(f.path, text) case None => [] case Some(c) => [c])
  }

  /** The card a file pushes is the one `Card` builds from its path and text. */
  lemma PushedCard(f: SourceFile)
    ensures Pushed(f) != [] ==> f.load.Some? && Card(f.path, f.load.value).Some? && Pushed(f) == [Card(f.path, f.load.value).value]
  {
  }

  /** `postsArray` after the loop has run over `files`, in enumeration order: at most one card per file, each with a title. */
  function Kept(files: seq<SourceFile>): (k: seq<ListingPost>)
    ensures |k| <= |files|
    ensures forall c :: c in k ==> c.title != ""
  {
    if files == [] then [] else Kept(files[..|files| - 1]) + Pushed(files[|files| - 1])
  }

  /** `Array.prototype.reverse`. */
  function Reverse<T>(s: seq<T>): (r: seq<T>)
    ensures |r| == |s|
    ensures forall i :: 0 <= i < |s| ==> r[i] == s[|s| - 1 - i]
  {
    if s == [] then [] else [s[|s| - 1]] + Reverse(s[..|s| - 1])
  }

  /** `fetchPosts`: the loop that fills `postsArray`, then its reversal. */
  method FetchPosts(files: seq<SourceFile>) returns (posts: seq<ListingPost>)
    ensures posts == Reverse(Kept(files))
  {
    var postsArray: seq<ListingPost> := [];
    var i := 0;
    while i < |files|
      invariant 0 <= i <= |files|
      invariant postsArray == Kept(files[..i])
    {
      var f := files[i];
      KeptStep(files, i);
      ghost var before := postsArray;
      if f.load.Some? {
        var doc := ParseFrontmatter(f.load.value);
        var data := doc.data;
        if Titled(data) {
          var slug := ResolveSlug(data, PathSlug(f.path));
          var card := ListingPost(
            slug,
            FieldOr(data, "category", "coding"),
            FieldOr(data, "label", "Note"),
            FieldOr(data, "date", ""),
            FieldOr(data, "readTime", ""),
            data["title"],
            FieldOr(data, "excerpt", ""));
          assert Pushed(f) == [card];
          postsArray := postsArray + [card];
        } else {
          assert Pushed(f) == [];
        }
      } else {
        assert Pushed(f) == [];
      }
      assert postsArray == before + Pushed(f);
      i := i + 1;
    }
    assert files[..|files|] == files;
    posts := Reverse(postsArray);
  }

  /** One more file: `Kept` of the first `i + 1` files. */
  lemma KeptStep(files: seq<SourceFile>, i: nat)
    requires i < |files|
    ensures Kept(files[..i + 1]) == Kept(files[..i]) + Pushed(files[i])
  {
    assert files[..i + 1][..i] == files[..i];
  }

  /** The files are processed independently: `Kept` of two runs is `Kept` of each, in order. */
  lemma {:induction false} KeptConcat(a: seq<SourceFile>, b: seq<SourceFile>)
    ensures Kept(a + b) == Kept(a) + Kept(b)
    decreases |b|
  {
    if b == [] {
      assert a + b == a;
    } else {
      var n := |b| - 1;
      var init, last := b[..n], Pushed(b[n]);
      assert (a + b)[..|a + b| - 1] == a + init;
      assert (a + b)[|a + b| - 1] == b[n];
      assert Kept(a + b) == Kept(a + init) + last;
      assert Kept(b) == Kept(init) + last;
      KeptConcat(a, init);
      ConcatAssoc(Kept(a), Kept(init), last);
    }
  }

  /** A file whose loader fails is skipped, and every other file is still processed. */
  lemma FailedFileSkipped(a: seq<SourceFile>, f: SourceFile, b: seq<SourceFile>)
    requires f.load.None?
    ensures Kept(a + [f] + b) == Kept(a + b)
  {
    KeptConcat(a + [f], b);
    KeptConcat(a, [f]);
    KeptConcat(a, b);
    KeptSingle(f);
  }

  /** A single file adds what it pushes. */
  lemma KeptSingle(f: SourceFile)
    ensures Kept([f]) == Pushed(f)
  {
    assert [f][..0] == [];
  }

  /** The listing has at most as many cards as there are files, each titled and built by `Card` from one of the files. */
  lemma ListingShape(files: seq<SourceFile>)
    ensures |Reverse(Kept(files))| <= |files|
    ensures forall c :: c in Reverse(Kept(files)) ==> c.title != "" && exists j :: CardFrom(files, j, c)
  {
    ReverseElements(Kept(files));
    KeptCards(files);
  }

  /** Card `c` is the one `Card` builds from file `j`. */
  predicate CardFrom(files: seq<SourceFile>, j: int, c: ListingPost) {
    0 <= j < |files| && files[j].load.Some? && Card(files[j].path, files[j].load.value) == Some(c)
  }

  /** Every card in the listing is the card `Card` builds from one of the loaded files. */
  lemma {:induction false} KeptCards(files: seq<SourceFile>)
    ensures forall c :: c in Kept(files) ==> exists j :: CardFrom(files, j, c)
    decreases |files|
  {
    if files != [] {
      var n := |files| - 1;
      var init, last := files[..n], files[n];
      assert Kept(files) == Kept(init) + Pushed(last);
      KeptCards(init);
      forall c | c in Kept(files)
        ensures exists j :: CardFrom(files, j, c)
      {
        if c in Kept(init) {
          var j :| CardFrom(init, j, c);
          assert files[j] == init[j];
          assert CardFrom(files, j, c);
        } else {
          PushedCard(last);
          assert CardFrom(files, n, c);
        }
      }
    }
  }

  /** Reversing keeps the elements. */
  lemma ReverseElements<T>(s: seq<T>)
    ensures forall x :: x in Reverse(s) <==> x in s
  {
    var r := Reverse(s);
    forall x | x in r ensures x in s {
      var i :| 0 <= i < |r| && r[i] == x;
      assert s[|s| - 1 - i] == x;
    }
    forall x | x in s ensures x in r {
      var i :| 0 <= i < |s| && s[i] == x;
      assert r[|s| - 1 - i] == x;
    }
  }
}
