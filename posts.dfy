/**
 * What the three readers of the posts directory share once a file has been
 * parsed: reading a header field with a fallback (`data.key || fallback`),
 * the title test (`if (data.title)`), and the slug rule — the header's
 * `slug` when it is non-empty, otherwise the file name with its first `.md`
 * removed.
 */
module Posts {
  import opened Text
  import opened Wrappers

  /**
   * One markdown module of the bundled posts directory: its path and the text its
   * loader resolves to, or `None` when the loader rejects.
   */
  datatype SourceFile = SourceFile(path: string, load: Option<string>)

  /**
   * `data.key || fallback`: the header value when the key is present and its
   * value is non-empty (every non-empty string is truthy), the fallback otherwise.
   */
  function FieldOr(data: map<string, string>, key: string, fallback: string): (r: string)
    ensures key in data && data[key] != "" ==> r == data[key]
    ensures key !in data || data[key] == "" ==> r == fallback
  {
    if key in data && data[key] != "" then data[key] else fallback
  }

  /** `data.title` is truthy: a `title` key with a non-empty value. */
  predicate Titled(data: map<string, string>) {
    "title" in data && data["title"] != ""
  }

  /** The file name without its first `.md` (`name.replace('.md', '')`, which replaces one occurrence only). */
  function NameSlug(name: string): string {
    RemoveFirst(name, ".md")
  }

  /** The listing's and the post page's fallback: the last `/` segment of the path, then `NameSlug`. */
  function PathSlug(path: string): string {
    NameSlug(LastSegment(path, '/'))
  }

  /** `data.slug || fallback`. */
  function ResolveSlug(data: map<string, string>, fallback: string): (slug: string)
    ensures "slug" in data && data["slug"] != "" ==> slug == data["slug"]
    ensures "slug" !in data || data["slug"] == "" ==> slug == fallback
  {
    FieldOr(data, "slug", fallback)
  }

  /** `name.endsWith('.md')`. */
  predicate EndsWithMd(name: string) {
    |name| >= 3 && name[|name| - 3..] == ".md"
  }

  /** A name holding `.md` only at its end loses exactly that suffix. */
  lemma NameSlugOfPlainName(stem: string)
    requires Find(stem, ".md", 0, false) == -1
    ensures NameSlug(stem + ".md") == stem
  {
    var s := stem + ".md";
    var k := Find(s, ".md", 0, false);
    assert MatchesAt(s, ".md", |stem|, false) by {
      assert forall t :: 0 <= t < 3 ==> s[|stem| + t] == ".md"[t];
    }
    assert k == |stem| by {
      forall j: nat | j < |stem| ensures !MatchesAt(s, ".md", j, false) {
        if j + 3 <= |stem| {
          assert !MatchesAt(stem, ".md", j, false);
          assert forall u :: 0 <= u < |stem| ==> s[u] == stem[u];
        } else if j + 1 == |stem| {
          assert s[j + 1] == '.';
          assert !SameChar(s[j + 1], ".md"[1], false);
        } else {
          assert s[j + 2] == '.';
          assert !SameChar(s[j + 2], ".md"[2], false);
        }
      }
    }
    var r := RemoveFirst(s, ".md");
    assert r[..k] == stem;
    assert |r| == |stem|;
  }
}
