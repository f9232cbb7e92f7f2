/** What BlogList and RecentBlogs both compute over parsed headers: the
    tag and category selections and the distinct tag and category lists
    (src/pages/BlogList.tsx:121-126, src/components/RecentBlogs.tsx:93-99). */
module Catalog {
  import opened Wrappers
  import opened Seqs
  import opened Frontmatter

  /** A selection filters only when it is neither `null` nor `''`. */
  predicate Active(sel: Option<string>) {
    sel.Some? && sel.value != ""
  }

  /** A string-valued header field, `None` when the header never set it. */
  function Field(rec: Record, key: string): Option<string> {
    if key in rec.fields then Some(rec.fields[key]) else None
  }

  /** `!selectedTag || post.tags.includes(selectedTag)`. */
  predicate HasTag(rec: Record, sel: Option<string>) {
    !Active(sel) || sel.value in rec.tags
  }

  /** `!selectedCategory || post.category === selectedCategory`: a post
      without a category matches no active selection. */
  predicate InCategory(rec: Record, sel: Option<string>) {
    !Active(sel) || Field(rec, "category") == Some(sel.value)
  }

  /** `posts.flatMap(post => post.tags)`. */
  function TagStream(recs: seq<Record>): seq<string> {
    Flatten(seq(|recs|, i requires 0 <= i < |recs| => recs[i].tags))
  }

  /** `post.category`, with `None` for `undefined`. */
  function Category(rec: Record): Option<string> {
    Field(rec, "category")
  }

  /** `allTags`: every tag of every post, once each, in the order of first
      occurrence. */
  function AllTags(recs: seq<Record>): (r: seq<string>)
    ensures forall t :: t in r <==> exists i :: 0 <= i < |recs| && t in recs[i].tags
    ensures forall t :: t in r <==> t in TagStream(recs)
    ensures NoDuplicates(r)
    ensures forall i, j :: 0 <= i < j < |r| ==> FirstPos(TagStream(recs), r[i]) < FirstPos(TagStream(recs), r[j])
  {
    var lists := seq(|recs|, i requires 0 <= i < |recs| => recs[i].tags);
    assert forall i :: 0 <= i < |recs| ==> lists[i] == recs[i].tags;
    Distinct(TagStream(recs))
  }

  /** `allCategories`: every category value once, in the order of first
      occurrence; `None` stands for the `undefined` of a post without one. */
  function AllCategories(recs: seq<Record>): (r: seq<Option<string>>)
    ensures forall c :: c in r <==> exists i :: 0 <= i < |recs| && Field(recs[i], "category") == c
    ensures forall c :: c in r <==> c in Map(recs, Category)
    ensures NoDuplicates(r)
    ensures forall i, j :: 0 <= i < j < |r| ==> FirstPos(Map(recs, Category), r[i]) < FirstPos(Map(recs, Category), r[j])
  {
    var cs := Map(recs, Category);
    assert forall c :: c in cs <==> exists i :: 0 <= i < |recs| && Field(recs[i], "category") == c by {
      forall c | c in cs ensures exists i :: 0 <= i < |recs| && Field(recs[i], "category") == c {
        var i :| 0 <= i < |cs| && cs[i] == c;
      }
    }
    Distinct(cs)
  }

  /** With no selection every record passes both filters. */
  lemma NoSelectionPasses(rec: Record)
    ensures HasTag(rec, None) && InCategory(rec, None)
    ensures HasTag(rec, Some("")) && InCategory(rec, Some(""))
  {
  }
}
