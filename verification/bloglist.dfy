/** The blog list page (src/pages/BlogList.tsx:50-134): every markdown
    file with an anchored frontmatter block becomes a post, the posts are
    sorted newest first, and the page offers the distinct tags and
    categories and a tag / category / text filter. */
module BlogList {
  import opened Wrappers
  import opened Text
  import opened Seqs
  import opened Frontmatter
  import opened Slugs
  import opened Catalog
  import Anchored

  /** A post: its parsed header, the text after the frontmatter, trimmed,
      and its link. A header `content` or `path` key is shadowed by these
      two, as the object spread puts them last. */
  datatype Post = Post(rec: Record, content: string, path: string)

  /** The three filter inputs of the page. */
  datatype Selection = Selection(tag: Option<string>, category: Option<string>, search: string)

  /** One `(path, text)` entry of the bundled markdown files: `None` when
      the file name is empty or the text has no anchored frontmatter. No
      header field is required. */
  function LoadPost(file: (string, string)): (r: Option<Post>)
    ensures r.Some? ==> FileName(file.0) != "" && r.value.path == PostPath(FileName(file.0))
    ensures r.Some? ==> AllClean(r.value.rec.tags)
    ensures r.Some? ==> "tags" !in r.value.rec.fields && ProtoKey !in r.value.rec.fields
  {
    var name := FileName(file.0);
    if name == "" then None
    else
      match Anchored.Block(file.1)
      case None => None
      case Some(block) =>
        Some(Post(ParseHeader(block.0, EmptyRecord), block.1, PostPath(name)))
  }

  /** A file is left out exactly when its name is empty or its text has
      no anchored frontmatter at all. */
  lemma LoadPostExcluded(file: (string, string))
    ensures LoadPost(file).None? <==> FileName(file.0) == "" || forall c :: !Anchored.Valid(file.1, c)
  {
    Anchored.BlockNone(file.1);
  }

  /** The post of a file `---⏎header⏎---rest`: the header parsed from
      nothing, the trimmed rest as content, and the `/blogs/` link. */
  lemma LoadPostOf(path: string, b1: string, h: string, b2: string, rest: string)
    requires FileName(path) != ""
    requires Anchored.LineBreaks(b1) && Anchored.LineBreaks(b2) && Anchored.PlainHeader(h)
    ensures LoadPost((path, "---" + b1 + h + b2 + "---" + rest))
            == Some(Post(ParseHeader(h, EmptyRecord), Trim(rest), PostPath(FileName(path))))
  {
    Anchored.BlockOf(b1, h, b2, rest);
  }

  /** The posts of the files, in file order. */
  function Loaded(files: seq<(string, string)>): (r: seq<Post>)
    ensures |r| <= |files|
    ensures forall p :: p in r <==> exists i :: 0 <= i < |files| && LoadPost(files[i]) == Some(p)
  {
    FilterMap(files, LoadPost)
  }

  /** Files load one after the other: the posts of two file lists side by
      side are those of the first followed by those of the second. */
  lemma LoadedAppend(files: seq<(string, string)>, more: seq<(string, string)>)
    ensures Loaded(files + more) == Loaded(files) + Loaded(more)
  {
    FilterMapAppend(files, more, LoadPost);
  }

  /** A single file gives its post, or nothing. */
  lemma LoadedOne(file: (string, string))
    ensures Loaded([file]) == if LoadPost(file).Some? then [LoadPost(file).value] else []
  {
    FilterMapOne(file, LoadPost);
  }

  /** The sort key: the `created` field read as a date. Date parsing is a
      parameter of the model; `None` is the `undefined` of a missing field. */
  function ByCreated(dateKey: Option<string> -> int): Post -> int {
    (p: Post) => dateKey(Field(p.rec, "created"))
  }

  /** The page's posts: a permutation of the loaded posts, newest first,
      posts with equal dates in file order. */
  function Posts(files: seq<(string, string)>, dateKey: Option<string> -> int): (r: seq<Post>)
    ensures multiset(r) == multiset(Loaded(files))
    ensures SortedDesc(r, ByCreated(dateKey))
    ensures forall k :: WithKey(r, ByCreated(dateKey), k) == WithKey(Loaded(files), ByCreated(dateKey), k)
  {
    SortDesc(Loaded(files), ByCreated(dateKey))
  }

  /** A searched field; a missing one reads as empty. */
  function Searched(p: Post, key: string): (r: string)
    ensures key in p.rec.fields ==> r == p.rec.fields[key]
    ensures key !in p.rec.fields ==> r == ""
  {
    Field(p.rec, key).GetOr("")
  }

  /** `a.toLowerCase().includes(q.toLowerCase())`. */
  predicate Mentions(a: string, q: string) {
    Includes(ToLower(a), ToLower(q))
  }

  /** The search condition: an empty query, or the query found, ignoring
      case, in the title, the summary, the content or one of the tags. */
  predicate MatchesSearch(p: Post, q: string) {
    || q == ""
    || Mentions(Searched(p, "title"), q)
    || Mentions(Searched(p, "summary"), q)
    || Mentions(p.content, q)
    || exists i :: 0 <= i < |p.rec.tags| && Mentions(p.rec.tags[i], q)
  }

  /** The three conditions of `filteredPosts`, all required. */
  predicate Keep(p: Post, sel: Selection) {
    HasTag(p.rec, sel.tag) && InCategory(p.rec, sel.category) && MatchesSearch(p, sel.search)
  }

  /** `filteredPosts`: the posts meeting the selection, each as often as
      before, in their original order. */
  function Filtered(posts: seq<Post>, sel: Selection): (r: seq<Post>)
    ensures IsSubsequence(r, posts)
    ensures forall p :: p in r <==> p in posts && Keep(p, sel)
    ensures forall p :: multiset(r)[p] == if Keep(p, sel) then multiset(posts)[p] else 0
  {
    Filter(posts, p => Keep(p, sel))
  }

  /** With nothing selected and no query, every post is shown. */
  lemma FilteredNothingSelected(posts: seq<Post>)
    ensures Filtered(posts, Selection(None, None, "")) == posts
  {
    FilterAll(posts, p => Keep(p, Selection(None, None, "")));
  }

  /** The query's letter case does not matter. */
  lemma SearchIgnoresCase(p: Post, q: string)
    ensures MatchesSearch(p, q) <==> MatchesSearch(p, ToLower(q))
  {
    ToLowerIdempotent(q);
  }

  /** A post whose content holds the query, ignoring case, passes the
      search. */
  lemma SearchFindsContent(p: Post, q: string, i: nat)
    requires OccursAt(ToLower(p.content), ToLower(q), i)
    ensures MatchesSearch(p, q)
  {
    IncludesSlice(ToLower(p.content), ToLower(q), i);
  }
}
