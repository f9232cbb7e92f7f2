/** The photo page (src/pages/PhotoDetail.tsx:6-157): the photo whose id
    is the route's, and a full-screen preview with wrap-around arrows and
    an `n / len` counter. */
module PhotoDetail {
  import opened Wrappers
  import opened Seqs
  import opened Gallery

  /** `photos.find(p => p.id === id)`. */
  function FindPhoto(photos: seq<Photo>, id: string): (r: Option<Photo>)
    ensures r.None? <==> forall i :: 0 <= i < |photos| ==> photos[i].id != id
    ensures r.Some? ==> exists i :: 0 <= i < |photos| && photos[i] == r.value
                                    && forall j :: 0 <= j < i ==> photos[j].id != id
  {
    match FindIndex(photos, (p: Photo) => p.id == id)
    case None => None
    case Some(i) => Some(photos[i])
  }

  /** The left arrow: from no preview it opens the first image, otherwise
      it steps back with wrap-around. */
  function PrevIndex(sel: Option<int>, len: int): (r: Option<int>)
    ensures r.Some?
    ensures sel.None? ==> r == Some(0)
    ensures sel.Some? && 0 <= sel.value < len ==> 0 <= r.value < len
  {
    match sel
    case None => Some(0)
    case Some(i) => Some(if i == 0 then len - 1 else i - 1)
  }

  /** The right arrow: from no preview it opens the first image, otherwise
      it steps forward with wrap-around. */
  function NextIndex(sel: Option<int>, len: int): (r: Option<int>)
    ensures r.Some?
    ensures sel.None? ==> r == Some(0)
    ensures sel.Some? && 0 <= sel.value < len ==> 0 <= r.value < len
  {
    match sel
    case None => Some(0)
    case Some(i) => Some(if i == len - 1 then 0 else i + 1)
  }

  /** The page's arrows step exactly as the gallery's handlers do. */
  lemma ArrowsAsGallery(i: int, len: int)
    ensures PrevIndex(Some(i), len) == Some(Gallery.Prev(i, len))
    ensures NextIndex(Some(i), len) == Some(Gallery.Next(i, len))
  {
  }

  /** On an open preview the two arrows undo each other. */
  lemma ArrowsInverse(i: int, len: int)
    requires 0 <= i < len
    ensures NextIndex(PrevIndex(Some(i), len), len) == Some(i)
    ensures PrevIndex(NextIndex(Some(i), len), len) == Some(i)
  {
    Gallery.NextPrevInverse(i, len);
  }

  /** `k` presses of the right arrow. */
  function Steps(sel: Option<int>, len: int, k: nat): Option<int> {
    if k == 0 then sel else NextIndex(Steps(sel, len, k - 1), len)
  }

  /** Before the last image each press moves one image on. */
  lemma {:induction false} StepsForward(i: int, len: int, k: nat)
    requires 0 <= i && i + k < len
    ensures Steps(Some(i), len, k) == Some(i + k)
  {
    if k > 0 {
      StepsForward(i, len, k - 1);
    }
  }

  /** Pressing `a` then `b` times is pressing `a + b` times. */
  lemma {:induction false} StepsAdd(sel: Option<int>, len: int, a: nat, b: nat)
    ensures Steps(Steps(sel, len, a), len, b) == Steps(sel, len, a + b)
  {
    if b > 0 {
      StepsAdd(sel, len, a, b - 1);
    }
  }

  /** `len` presses of the right arrow come back to the same image. */
  lemma FullCycle(i: int, len: int)
    requires 0 <= i < len
    ensures Steps(Some(i), len, len) == Some(i)
  {
    StepsForward(i, len, len - 1 - i);
    assert Steps(Some(i), len, len - i) == Some(0);
    StepsForward(0, len, i);
    StepsAdd(Some(i), len, len - i, i);
  }

  /** The counter of the preview: one-based position and total, with the
      position between 1 and the image count. */
  function Counter(i: int, p: Photo): (r: (int, int))
    requires 0 <= i < |p.urls|
    ensures 1 <= r.0 <= r.1 && r.1 == |p.urls|
  {
    (i + 1, |p.urls|)
  }

  /** With more than one image the gallery's preview shows the same
      counter as the photo page. */
  lemma OverlayCounter(p: Photo, i: int)
    requires 0 <= i < |p.urls| && ShowsArrows(p)
    ensures Overlay(p, i) == Some(Counter(i, p))
  {
  }
}
