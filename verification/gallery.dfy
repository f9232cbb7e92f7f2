/** The gallery page (src/pages/Gallery.tsx:17-47): the distinct photo
    categories, the category filter, and the wrap-around image navigation
    of the preview. */
module Gallery {
  import opened Wrappers
  import opened Seqs
  import Catalog

  /** An entry of the photo list. */
  datatype Photo = Photo(id: string, urls: seq<string>, title: string, description: string,
                         category: string, created: string)

  function CategoryOf(p: Photo): string {
    p.category
  }

  /** `categories`: every photo category once, in first-occurrence order. */
  function Categories(photos: seq<Photo>): (r: seq<string>)
    ensures forall c :: c in r <==> exists i :: 0 <= i < |photos| && photos[i].category == c
    ensures NoDuplicates(r)
    ensures forall c :: c in r <==> c in Map(photos, CategoryOf)
    ensures forall i, j :: 0 <= i < j < |r| ==>
              FirstPos(Map(photos, CategoryOf), r[i]) < FirstPos(Map(photos, CategoryOf), r[j])
  {
    var cs := Map(photos, CategoryOf);
    assert forall c :: c in cs <==> exists i :: 0 <= i < |photos| && photos[i].category == c by {
      forall c | c in cs ensures exists i :: 0 <= i < |photos| && photos[i].category == c {
        var i :| 0 <= i < |cs| && cs[i] == c;
      }
    }
    Distinct(cs)
  }

  /** `filteredPhotos`: every photo when no category is selected (`null`
      or `''`), otherwise the photos of that category, in order. */
  function Shown(photos: seq<Photo>, sel: Option<string>): (r: seq<Photo>)
    ensures IsSubsequence(r, photos)
    ensures Catalog.Active(sel) ==> forall p :: p in r <==> p in photos && p.category == sel.value
    ensures Catalog.Active(sel) ==>
              forall p :: multiset(r)[p] == if p.category == sel.value then multiset(photos)[p] else 0
    ensures !Catalog.Active(sel) ==> r == photos
  {
    if Catalog.Active(sel) then Filter(photos, (p: Photo) => p.category == sel.value)
    else
      IdentitySubsequence(photos);
      photos
  }

  lemma {:induction false} IdentitySubsequence<T(!new)>(xs: seq<T>)
    ensures IsSubsequence(xs, xs)
  {
    PrefixSubsequence(xs, xs);
  }

  /** `handleNextImage`'s update: the last index wraps to 0, so on a valid
      index it is `(i + 1) mod len` and stays in range. */
  function Next(i: int, len: int): (r: int)
    ensures 0 <= i < len ==> r == (i + 1) % len && 0 <= r < len
  {
    if i == len - 1 then 0 else i + 1
  }

  /** `handlePrevImage`'s update: index 0 wraps to the last, so on a valid
      index it is `(i - 1) mod len` and stays in range. */
  function Prev(i: int, len: int): (r: int)
    ensures 0 <= i < len ==> r == (i - 1 + len) % len && 0 <= r < len
  {
    if i == 0 then len - 1 else i - 1
  }

  /** Next and prev undo each other on every valid index. */
  lemma NextPrevInverse(i: int, len: int)
    requires 0 <= i < len
    ensures Next(Prev(i, len), len) == i
    ensures Prev(Next(i, len), len) == i
  {
  }

  /** The handlers only move the index while a photo is open in the
      preview; the page itself never opens one. */
  function OnNext(selected: Option<Photo>, i: int): (r: int)
    ensures selected.None? ==> r == i
    ensures selected.Some? && 0 <= i < |selected.value.urls| ==> 0 <= r < |selected.value.urls|
  {
    match selected
    case None => i
    case Some(p) => Next(i, |p.urls|)
  }

  function OnPrev(selected: Option<Photo>, i: int): (r: int)
    ensures selected.None? ==> r == i
    ensures selected.Some? && 0 <= i < |selected.value.urls| ==> 0 <= r < |selected.value.urls|
  {
    match selected
    case None => i
    case Some(p) => Prev(i, |p.urls|)
  }

  /** The preview shows arrows and the `n / len` counter only for a photo
      with more than one image. */
  predicate ShowsArrows(p: Photo) {
    |p.urls| > 1
  }

  /** What the preview draws over image `i` of an open photo: the arrows
      and the `n / len` counter, or nothing for a photo with one image. */
  function Overlay(p: Photo, i: int): (r: Option<(int, int)>)
    requires 0 <= i < |p.urls|
    ensures r.Some? <==> ShowsArrows(p)
    ensures r.Some? ==> 1 <= r.value.0 <= r.value.1 && r.value.1 == |p.urls| && r.value.0 - 1 == i
  {
    if |p.urls| > 1 then Some((i + 1, |p.urls|)) else None
  }
}
