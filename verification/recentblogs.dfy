/** The recent-posts section of the home page
    (src/components/RecentBlogs.tsx:33-102): the same loading as the blog
    list but without the body, only the five newest posts, and a tag /
    category filter without text search, again cut to five. */
module RecentBlogs {
  import opened Wrappers
  import opened Seqs
  import opened Frontmatter
  import opened Slugs
  import opened Catalog
  import Anchored
  import BlogList

  /** A post of this section: its parsed header and its link. */
  datatype Post = Post(rec: Record, path: string)

  /** How many posts the section keeps, and shows. */
  const Limit: nat := 5

  /** One bundled file: `None` when the file name is empty or the text has
      no anchored frontmatter; no header field is required. */
  function LoadPost(file: (string, string)): (r: Option<Post>)
    ensures r.Some? ==> FileName(file.0) != "" && r.value.path == PostPath(FileName(file.0))
  {
    var name := FileName(file.0);
    if name == "" then None
    else
      match Anchored.Block(file.1)
      case None => None
      case Some(block) => Some(Post(ParseHeader(block.0, EmptyRecord), PostPath(name)))
  }

  /** The section loads a file exactly as the blog list does, minus the
      content. */
  lemma LoadPostAsBlogList(file: (string, string))
    ensures LoadPost(file).None? <==> BlogList.LoadPost(file).None?
    ensures LoadPost(file).Some? ==>
              LoadPost(file).value == Post(BlogList.LoadPost(file).value.rec, BlogList.LoadPost(file).value.path)
  {
  }

  function Loaded(files: seq<(string, string)>): (r: seq<Post>)
    ensures |r| <= |files|
    ensures forall p :: p in r <==> exists i :: 0 <= i < |files| && LoadPost(files[i]) == Some(p)
  {
    FilterMap(files, LoadPost)
  }

  /** Files load one after the other: the posts of two file lists side by
      side are those of the first followed by those of the second. */
  lemma LoadedAppend(files: seq<(string, string)>, more: seq<(string, string)>)
    ensures Loaded(files + more) == Loaded(files) + Loaded(more)
  {
    FilterMapAppend(files, more, LoadPost);
  }

  /** A single file gives its post, or nothing. */
  lemma LoadedOne(file: (string, string))
    ensures Loaded([file]) == if LoadPost(file).Some? then [LoadPost(file).value] else []
  {
    FilterMapOne(file, LoadPost);
  }

  function ByCreated(dateKey: Option<string> -> int): Post -> int {
    (p: Post) => dateKey(Field(p.rec, "created"))
  }

  /** The newest-first stable sort of all loaded posts. */
  function Sorted(files: seq<(string, string)>, dateKey: Option<string> -> int): (r: seq<Post>)
    ensures multiset(r) == multiset(Loaded(files))
    ensures SortedDesc(r, ByCreated(dateKey))
    ensures forall k :: WithKey(r, ByCreated(dateKey), k) == WithKey(Loaded(files), ByCreated(dateKey), k)
  {
    SortDesc(Loaded(files), ByCreated(dateKey))
  }

  /** The kept posts: the first `min(5, n)` of the sort. */
  function Kept(files: seq<(string, string)>, dateKey: Option<string> -> int): (r: seq<Post>)
    ensures |r| == if |Loaded(files)| < Limit then |Loaded(files)| else Limit
    ensures r <= Sorted(files, dateKey)
    ensures multiset(r) <= multiset(Loaded(files))
    ensures SortedDesc(r, ByCreated(dateKey))
  {
    var sorted := Sorted(files, dateKey);
    var r := Take(sorted, Limit);
    assert sorted == r + sorted[|r|..];
    r
  }

  /** No dropped post is newer than a kept one. */
  lemma KeptNewest(files: seq<(string, string)>, dateKey: Option<string> -> int, x: Post, y: Post)
    requires x in Kept(files, dateKey)
    requires y in multiset(Loaded(files)) - multiset(Kept(files, dateKey))
    ensures ByCreated(dateKey)(x) >= ByCreated(dateKey)(y)
  {
    var sorted := Sorted(files, dateKey);
    var kept := Kept(files, dateKey);
    DroppedPart(sorted, kept, Loaded(files), y);
    assert kept == sorted[..|kept|];
    PrefixFirst(sorted, ByCreated(dateKey), |kept|, x, y);
  }

  /** What a prefix leaves of a permutation is in the rest of it. */
  lemma DroppedPart(sorted: seq<Post>, kept: seq<Post>, all: seq<Post>, y: Post)
    requires kept <= sorted && multiset(sorted) == multiset(all)
    requires y in multiset(all) - multiset(kept)
    ensures y in sorted[|kept|..]
  {
    assert sorted == kept + sorted[|kept|..];
    assert multiset(sorted) == multiset(kept) + multiset(sorted[|kept|..]);
  }

  /** The headers of the kept posts, the only ones the section's tag and
      category lists are computed from. */
  function KeptRecords(files: seq<(string, string)>, dateKey: Option<string> -> int): seq<Record> {
    Map(Kept(files, dateKey), (p: Post) => p.rec)
  }

  /** The section lists a tag exactly when one of the at most five kept
      posts carries it, and a category exactly when one of them has it. */
  lemma SectionLists(files: seq<(string, string)>, dateKey: Option<string> -> int)
    ensures var kept := Kept(files, dateKey);
            && (forall t :: t in AllTags(KeptRecords(files, dateKey)) <==>
                  exists i :: 0 <= i < |kept| && t in kept[i].rec.tags)
            && (forall c :: c in AllCategories(KeptRecords(files, dateKey)) <==>
                  exists i :: 0 <= i < |kept| && Field(kept[i].rec, "category") == c)
  {
  }

  /** Tag and category, no text search. */
  predicate Keep(p: Post, tag: Option<string>, category: Option<string>) {
    HasTag(p.rec, tag) && InCategory(p.rec, category)
  }

  /** `filteredPosts`: at most five of the posts meeting the selection,
      in order; all of them when there are at most five posts. */
  function Filtered(posts: seq<Post>, tag: Option<string>, category: Option<string>): (r: seq<Post>)
    ensures |r| <= Limit
    ensures IsSubsequence(r, posts)
    ensures forall p :: p in r ==> Keep(p, tag, category)
    ensures forall p :: multiset(r)[p] <= if Keep(p, tag, category) then multiset(posts)[p] else 0
    ensures |posts| <= Limit ==>
              forall p :: multiset(r)[p] == if Keep(p, tag, category) then multiset(posts)[p] else 0
  {
    var all := Filter(posts, p => Keep(p, tag, category));
    var r := Take(all, Limit);
    assert all == r + all[|r|..];
    assert multiset(all) == multiset(r) + multiset(all[|r|..]);
    assert forall p :: p in r ==> p in all;
    PrefixSubsequence(r, all);
    SubsequenceTrans(r, all, posts);
    r
  }

  /** On the at most five kept posts the cut never bites: a post is shown
      iff it meets the selection. */
  lemma FilteredKept(posts: seq<Post>, tag: Option<string>, category: Option<string>)
    requires |posts| <= Limit
    ensures forall p :: p in Filtered(posts, tag, category) <==> p in posts && Keep(p, tag, category)
    ensures forall p :: multiset(Filtered(posts, tag, category))[p] == if Keep(p, tag, category) then multiset(posts)[p] else 0
  {
  }

  /** With nothing selected the section shows the kept posts. */
  lemma FilteredNothingSelected(posts: seq<Post>)
    requires |posts| <= Limit
    ensures Filtered(posts, None, None) == posts
  {
    FilterAll(posts, p => Keep(p, None, None));
  }
}
