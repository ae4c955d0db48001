/**
 * The post page, `loadPost` in src/components/BlogPost.jsx: the bundled
 * post files are scanned in enumeration order, and the body of the first
 * one whose resolved slug equals the route id, or else the URL-decoded id,
 * is shown. The literal comparison comes first; decoding happens only when
 * it fails, and a decoding error, like a failing loader, skips that file.
 * When the scan ends without a match the page shows a fixed error message.
 *
 * `decodeURIComponent` is the parameter `decode`, `None` where it throws.
 */
module Lookup {
  import opened Wrappers
  import opened Text
  import opened Frontmatter
  import opened Posts

  /** What the page ends up showing. */
  datatype Outcome = Article(content: string) | Failed(message: string)

  const LoadError: string := "Could not load the blog post. It may have been moved or deleted."

  /** The slug a loaded file answers to. */
  function SlugOf(path: string, text: string): string {
    ResolveSlug(Parse(text).data, PathSlug(path))
  }

  /**
   * The slug comparison inside the loop: the slug must equal `id` or, failing
   * that, the decoded `id` when decoding succeeds. A literal match needs no
   * decoding, and with an id that cannot be decoded only a literal match
   * succeeds.
   */
  function SlugMatches(slug: string, id: string, decode: string -> Option<string>): (m: bool)
    ensures slug == id ==> m
    ensures decode(id).None? ==> (m <==> slug == id)
    ensures decode(id).Some? ==> (m <==> slug == id || slug == decode(id).value)
  {
    slug == id || (decode(id).Some? && slug == decode(id).value)
  }

  /** The test inside the loop, with its failure modes: the loader must succeed and the file's slug must match. */
  predicate Matches(f: SourceFile, id: string, decode: string -> Option<string>) {
    f.load.Some? && SlugMatches(SlugOf(f.path, f.load.value), id, decode)
  }

  /** What the scan over `files` shows: the body of a matching file, or the error message. */
  function FirstMatch(files: seq<SourceFile>, id: string, decode: string -> Option<string>): (o: Outcome)
    ensures o.Failed? ==> o.message == LoadError
    ensures o.Article? ==> exists i :: 0 <= i < |files| && Matches(files[i], id, decode) && o.content == Parse(files[i].load.value).content
  {
    if files == [] then Failed(LoadError)
    else if Matches(files[0], id, decode) then Article(Parse(files[0].load.value).content)
    else
      var rest := FirstMatch(files[1..], id, decode);
      assert forall i :: 0 <= i < |files| - 1 ==> files[1..][i] == files[i + 1];
      rest
  }

  /** `loadPost`: the scan with its early return on the first match, then the not-found error. */
  method LoadPost(files: seq<SourceFile>, id: string, decode: string -> Option<string>) returns (out: Outcome)
    ensures out == FirstMatch(files, id, decode)
  {
    var i := 0;
    while i < |files|
      invariant 0 <= i <= |files|
      invariant FirstMatch(files[i..], id, decode) == FirstMatch(files, id, decode)
    {
      var hit := TryFile(files[i], id, decode);
      FirstMatchStep(files, i, id, decode);
      if hit.Some? {
        return Article(hit.value);
      }
      i := i + 1;
    }
    return Failed(LoadError);
  }

  /** One step of the scan. */
  lemma FirstMatchStep(files: seq<SourceFile>, i: nat, id: string, decode: string -> Option<string>)
    requires i < |files|
    ensures FirstMatch(files[i..], id, decode) ==
      if Matches(files[i], id, decode) then Article(Parse(files[i].load.value).content)
      else FirstMatch(files[i + 1..], id, decode)
  {
    assert files[i..][0] == files[i];
    assert files[i..][1..] == files[i + 1..];
  }

  /** The page shows the not-found message exactly when no file of the whole set matches. */
  lemma {:induction false} FirstMatchSpec(files: seq<SourceFile>, id: string, decode: string -> Option<string>)
    ensures var out := FirstMatch(files, id, decode);
      && (out.Failed? <==> forall i :: 0 <= i < |files| ==> !Matches(files[i], id, decode))
      && (out.Failed? ==> out.message == LoadError)
    decreases |files|
  {
    if files != [] {
      if Matches(files[0], id, decode) {
        FirstMatchHit(files, id, decode);
      } else {
        var rest := files[1..];
        FirstMatchSkip(files, id, decode);
        FirstMatchSpec(rest, id, decode);
        assert forall i :: 0 < i < |files| ==> files[i] == rest[i - 1];
      }
    }
  }

  /** A matching head file decides the outcome. */
  lemma FirstMatchHit(files: seq<SourceFile>, id: string, decode: string -> Option<string>)
    requires files != [] && Matches(files[0], id, decode)
    ensures FirstMatch(files, id, decode) == Article(Parse(files[0].load.value).content)
  {}

  /** A head file that does not match is skipped. */
  lemma FirstMatchSkip(files: seq<SourceFile>, id: string, decode: string -> Option<string>)
    requires files != [] && !Matches(files[0], id, decode)
    ensures FirstMatch(files, id, decode) == FirstMatch(files[1..], id, decode)
  {}

  /** `files[i]` is the first file that matches. */
  predicate FirstAt(files: seq<SourceFile>, i: int, id: string, decode: string -> Option<string>) {
    && 0 <= i < |files| && Matches(files[i], id, decode)
    && forall j :: 0 <= j < i ==> !Matches(files[j], id, decode)
  }

  /** When the page shows a post, it is the body of the first matching file. */
  lemma {:induction false} FirstMatchFound(files: seq<SourceFile>, id: string, decode: string -> Option<string>)
    ensures var out := FirstMatch(files, id, decode);
      out.Article? ==> exists i :: FirstAt(files, i, id, decode) && out.content == Parse(files[i].load.value).content
    decreases |files|
  {
    if files != [] && Matches(files[0], id, decode) {
      FirstMatchHit(files, id, decode);
      assert FirstAt(files, 0, id, decode);
    } else if files != [] {
      var rest := files[1..];
      FirstMatchSkip(files, id, decode);
      FirstMatchFound(rest, id, decode);
      var out := FirstMatch(rest, id, decode);
      if out.Article? {
        var k :| FirstAt(rest, k, id, decode) && out.content == Parse(rest[k].load.value).content;
        FirstAtShift(files, k, id, decode);
      }
    }
  }

  /** Behind a head file that does not match, the first match moves one place down. */
  lemma FirstAtShift(files: seq<SourceFile>, k: int, id: string, decode: string -> Option<string>)
    requires files != [] && !Matches(files[0], id, decode) && FirstAt(files[1..], k, id, decode)
    ensures FirstAt(files, k + 1, id, decode) && files[k + 1] == files[1..][k]
  {
    var rest := files[1..];
    assert forall j :: 0 < j < k + 1 ==> files[j] == rest[j - 1];
  }

  /**
   * The body of the `try` block for one file: its body when it matches,
   * nothing when its loader or the decoding fails or its slug differs.
   */
  method TryFile(f: SourceFile, id: string, decode: string -> Option<string>) returns (hit: Option<string>)
    ensures hit.Some? <==> Matches(f, id, decode)
    ensures hit.Some? ==> hit.value == Parse(f.load.value).content
  {
    if f.load.None? {
      return None;
    }
    var doc := ParseFrontmatter(f.load.value);
    var slug := ResolveSlug(doc.data, PathSlug(f.path));
    if slug == id {
      return Some(doc.content);
    }
    var decoded := decode(id);
    if decoded.Some? && slug == decoded.value {
      return Some(doc.content);
    }
    return None;
  }

  /**
   * No title is needed: a file whose header sets only a slug is found by it,
   * and the page shows its trimmed body.
   */
  lemma UntitledFound(path: string, slug: string, body: string, decode: string -> Option<string>)
    requires slug != "" && WellFormed(Entry("slug", slug))
    ensures var text := Opening + Render([Entry("slug", slug)]) + Closing + body;
      && !Titled(Parse(text).data)
      && Matches(SourceFile(path, Some(text)), slug, decode)
      && Parse(text).content == Trim(body)
  {
    var text := Opening + Render([Entry("slug", slug)]) + Closing + body;
    SlugOnlyHeader(slug, body);
    assert SlugOf(path, text) == slug;
  }

  /** A header that sets only `slug` parses to that one entry. */
  lemma SlugOnlyHeader(slug: string, body: string)
    requires WellFormed(Entry("slug", slug))
    ensures Parse(Opening + Render([Entry("slug", slug)]) + Closing + body) == Document(map["slug" := slug], Trim(body))
  {
    var e := Entry("slug", slug);
    HeaderRoundTrip([e], body);
    EntriesMapSingle(e);
  }
}
