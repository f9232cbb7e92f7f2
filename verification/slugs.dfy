/** File names and post paths: the pages name a post by the last segment
    of its file path with `.md` removed (src/pages/BlogList.tsx:52,
    src/components/RecentBlogs.tsx:35, src/pages/BlogDetail.tsx:124) and
    link to it under `/blogs/` (src/pages/BlogList.tsx:97). */
module Slugs {
  import opened Wrappers
  import opened Text

  /** `path.split('/').pop()`: the piece after the last slash. */
  function LastSegment(path: string): (r: string)
    ensures '/' !in r
  {
    var parts := SplitOn(path, '/');
    parts[|parts| - 1]
  }

  /** A path without a slash is its own last segment. */
  lemma LastSegmentWhole(path: string)
    requires '/' !in path
    ensures LastSegment(path) == path
  {
    SplitOnNone(path, '/');
  }

  /** Whatever precedes the last slash does not matter. Together with
      `LastSegmentWhole` this covers every path. */
  lemma LastSegmentAfter(dir: string, seg: string)
    requires '/' !in seg
    ensures LastSegment(dir + "/" + seg) == seg
  {
    SplitOnConcat(dir, seg, '/');
    SplitOnNone(seg, '/');
  }

  /** `path.split('/').pop()?.replace('.md', '')`: the last segment with
      its FIRST `.md` removed, wherever that occurs. */
  function FileName(path: string): (r: string)
    ensures '/' !in r
  {
    var seg := LastSegment(path);
    RemoveKeepsOut(seg, ".md", '/');
    ReplaceFirst(seg, ".md", "")
  }

  /** Removing text never introduces a character. */
  lemma RemoveKeepsOut(s: string, pat: string, c: char)
    requires c !in s
    ensures c !in ReplaceFirst(s, pat, "")
  {
    if IndexOf(s, pat).Some? {
      var i := IndexOf(s, pat).value;
      ReplaceFirstSplice(s, pat, "");
      assert ReplaceFirst(s, pat, "") == s[..i] + s[i + |pat|..];
    }
  }

  /** The first `.md` of `name + ".md" + after` is the one right after
      `name` when `name` holds none. */
  lemma FirstMdAfter(name: string, after: string)
    requires !Includes(name, ".md")
    ensures IndexOf(name + ".md" + after, ".md") == Some(|name|)
  {
    var s := name + ".md" + after;
    assert s[|name|..|name| + 3] == ".md";
    assert OccursAt(s, ".md", |name|);
    assert s[|name|] == '.';
    forall k | 0 <= k < |name|
      ensures !OccursAt(s, ".md", k)
    {
      if k + 3 <= |name| {
        assert s[k..k + 3] == name[k..k + 3] by {
          assert forall j :: k <= j < k + 3 ==> s[j] == name[j];
        }
        assert !OccursAt(name, ".md", k);
      } else {
        assert s[k..k + 3][|name| - k] == '.';
        assert ".md"[|name| - k] != '.';
      }
    }
  }

  /** The file name of `dir/name.md…`: `name` followed by whatever came
      after the first `.md`, so `a.md.md` is named `a.md`. */
  lemma FileNameOf(dir: string, name: string, after: string)
    requires '/' !in name && '/' !in after && !Includes(name, ".md")
    ensures FileName(dir + "/" + name + ".md" + after) == name + after
  {
    var seg := name + ".md" + after;
    assert dir + "/" + name + ".md" + after == dir + "/" + seg;
    LastSegmentAfter(dir, seg);
    FirstMdAfter(name, after);
    assert seg[..|name|] == name && seg[|name| + 3..] == after;
  }

  /** The route prefix of a post page. */
  const BlogsPrefix: string := "/blogs/"

  /** `/blogs/${fileName}`: the link to a post. */
  function PostPath(name: string): (r: string)
    ensures BlogsPrefix <= r && r[|BlogsPrefix|..] == name
  {
    BlogsPrefix + name
  }

  /** The slug the `/blogs/:slug` route reads back from a post path is the
      file name it was built from. */
  lemma PostPathSlug(name: string)
    requires '/' !in name
    ensures PostPath(name)[|BlogsPrefix|..] == name
    ensures '/' !in PostPath(name)[|BlogsPrefix|..]
  {
  }
}
