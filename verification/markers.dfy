/** How the post page cuts a document into sections:
    `content.split(/^---\s*$/m)`. With the `m` flag, `^` holds at the start
    of the text and after every line terminator, and `$` holds at the end of
    the text and before every line terminator; `\s*` is greedy and gives
    characters back until `$` holds. A marker line is therefore three dashes
    at the start of a line followed by whitespace up to a line end, and the
    match takes the longest such whitespace run (which may run over line
    breaks into following blank lines).

    The split scans left to right for matches, never inside an earlier
    match, and cuts out the texts between them. */
module Markers {
  import opened Wrappers
  import opened Text
  import Seqs

  /** Multiline `^` at `q`. */
  predicate LineStart(s: string, q: nat) {
    q <= |s| && (q == 0 || IsLineTerminator(s[q - 1]))
  }

  /** Multiline `$` at `e`. */
  predicate LineEnd(s: string, e: nat) {
    e <= |s| && (e == |s| || IsLineTerminator(s[e]))
  }

  /** `^---\s*$` matches `s[q..e]`. */
  predicate MarkerOK(s: string, q: nat, e: nat) {
    && LineStart(s, q)
    && Dashes(s, q)
    && q + 3 <= e <= SpaceEnd(s, q + 3)
    && LineEnd(s, e)
  }

  /** Backtracking of the greedy `\s*`: tries ends `e`, `e - 1`, ..., `lo`
      and keeps the first at which `$` holds. */
  function BackToLineEnd(s: string, lo: nat, e: nat): (r: Option<nat>)
    requires lo <= e <= |s|
    ensures r.Some? ==> lo <= r.value <= e && LineEnd(s, r.value)
    decreases e - lo
  {
    if LineEnd(s, e) then Some(e)
    else if e == lo then None
    else BackToLineEnd(s, lo, e - 1)
  }

  /** `BackToLineEnd` finds the last line end in `[lo, e]`, and fails only
      when there is none. */
  lemma {:induction false} BackToLineEndLast(s: string, lo: nat, e: nat)
    requires lo <= e <= |s|
    ensures BackToLineEnd(s, lo, e).Some? ==>
              forall k :: BackToLineEnd(s, lo, e).value < k <= e ==> !LineEnd(s, k)
    ensures BackToLineEnd(s, lo, e).None? <==> forall k :: lo <= k <= e ==> !LineEnd(s, k)
    decreases e - lo
  {
    if !LineEnd(s, e) && e > lo {
      BackToLineEndLast(s, lo, e - 1);
    }
  }

  /** The end of the marker match that starts at `q`, if one does. */
  function MarkerEnd(s: string, q: nat): (r: Option<nat>)
    requires q <= |s|
    ensures r.Some? ==> MarkerOK(s, q, r.value)
  {
    if LineStart(s, q) && Dashes(s, q) then BackToLineEnd(s, q + 3, SpaceEnd(s, q + 3))
    else None
  }

  /** `MarkerEnd` takes the longest match at `q`, and there is none exactly
      when no marker line starts at `q`. */
  lemma MarkerEndLongest(s: string, q: nat)
    requires q <= |s|
    ensures MarkerEnd(s, q).Some? ==> forall e: nat :: MarkerOK(s, q, e) ==> e <= MarkerEnd(s, q).value
    ensures MarkerEnd(s, q).None? <==> forall e: nat :: !MarkerOK(s, q, e)
  {
    if LineStart(s, q) && Dashes(s, q) {
      BackToLineEndLast(s, q + 3, SpaceEnd(s, q + 3));
    }
  }

  /** A marker match: the span `s[start..end]`. */
  datatype Mark = Mark(start: nat, end: nat)

  /** The marks lie at or after `p`, in order, without overlapping, each at
      least three characters long, and within a text of length `n`. */
  predicate Ordered(ms: seq<Mark>, p: nat, n: nat) {
    && p <= n
    && (|ms| == 0 || (p <= ms[0].start && ms[0].start + 3 <= ms[0].end <= n && Ordered(ms[1..], ms[0].end, n)))
  }

  /** Every mark is the match the splitter finds at its start. */
  predicate Found(s: string, ms: seq<Mark>) {
    |ms| == 0 || (ms[0].start <= |s| && MarkerEnd(s, ms[0].start) == Some(ms[0].end) && Found(s, ms[1..]))
  }

  /** `k` is the start of one of the marks. */
  predicate IsStart(ms: seq<Mark>, k: nat) {
    |ms| > 0 && (ms[0].start == k || IsStart(ms[1..], k))
  }

  /** The splitter's scan from position `q`: at each position try a match;
      on failure move one character on, on success record it and continue
      after it. */
  function ScanFrom(s: string, q: nat): (r: seq<Mark>)
    requires q <= |s|
    ensures Ordered(r, q, |s|)
    ensures Found(s, r)
    decreases |s| - q
  {
    if q == |s| then []
    else match MarkerEnd(s, q)
      case None => ScanFrom(s, q + 1)
      case Some(e) => [Mark(q, e)] + ScanFrom(s, e)
  }

  /** No marker line starts strictly inside a marker match: its first three
      characters are dashes, the rest is whitespace. */
  lemma NoStartInside(s: string, q: nat, e: nat, k: nat)
    requires MarkerOK(s, q, e) && q < k < e
    ensures MarkerEnd(s, k).None?
  {
    if k < q + 3 {
      assert s[k - 1] == '-';
    } else {
      assert IsSpace(s[k]);
    }
  }

  /** The scan finds exactly the marker lines: a position from `q` on starts
      a recorded mark if and only if a marker line starts there. */
  lemma {:induction false} ScanFindsAll(s: string, q: nat)
    requires q <= |s|
    ensures forall k :: q <= k < |s| ==> (MarkerEnd(s, k).Some? <==> IsStart(ScanFrom(s, q), k))
    decreases |s| - q
  {
    if q < |s| {
      match MarkerEnd(s, q)
      case None =>
        ScanFindsAll(s, q + 1);
        StartsAfter(ScanFrom(s, q + 1), q + 1, |s|, q);
      case Some(e) =>
        ScanFindsAll(s, e);
        ScanFoundStep(s, q, e);
    }
  }

  /** One step of `ScanFindsAll`: a match at `q` ending at `e`, then the
      scan from `e`. */
  lemma ScanFoundStep(s: string, q: nat, e: nat)
    requires q < |s| && MarkerEnd(s, q) == Some(e)
    requires forall k :: e <= k < |s| ==> (MarkerEnd(s, k).Some? <==> IsStart(ScanFrom(s, e), k))
    ensures forall k :: q <= k < |s| ==> (MarkerEnd(s, k).Some? <==> IsStart(ScanFrom(s, q), k))
  {
    var r := ScanFrom(s, q);
    assert r == [Mark(q, e)] + ScanFrom(s, e);
    assert r[1..] == ScanFrom(s, e);
    forall k | q < k < e
      ensures MarkerEnd(s, k).None? && !IsStart(r, k)
    {
      NoStartInside(s, q, e, k);
      StartsAfter(ScanFrom(s, e), e, |s|, k);
    }
  }

  /** Marks ordered after `p` do not start before `p`. */
  lemma {:induction false} StartsAfter(ms: seq<Mark>, p: nat, n: nat, k: nat)
    requires Ordered(ms, p, n) && k < p
    ensures !IsStart(ms, k)
  {
    if |ms| > 0 {
      StartsAfter(ms[1..], ms[0].end, n, k);
    }
  }

  /** The scan skips a stretch in which no marker line starts. */
  lemma ScanSkip(s: string, a: nat, b: nat)
    requires a <= b <= |s|
    requires forall k :: a <= k < b ==> MarkerEnd(s, k).None?
    ensures ScanFrom(s, a) == ScanFrom(s, b)
  {
    var f := (k: nat) => if k <= |s| then ScanFrom(s, k) else [];
    forall k | a <= k < b
      ensures f(k) == f(k + 1)
    {
      ScanNone(s, k);
    }
    Seqs.Chain(f, a, b);
  }

  /** Where no marker line starts, the scan moves one character on. */
  lemma ScanNone(s: string, a: nat)
    requires a < |s| && MarkerEnd(s, a).None?
    ensures ScanFrom(s, a) == ScanFrom(s, a + 1)
  {
  }

  /** The texts between the marks: before the first, between consecutive
      ones, and after the last. */
  function Pieces(s: string, ms: seq<Mark>, p: nat): (r: seq<string>)
    requires Ordered(ms, p, |s|)
    ensures |r| == |ms| + 1
    ensures |ms| == 0 ==> r == [s[p..]]
    ensures |ms| > 0 ==> r[0] == s[p..ms[0].start]
  {
    if |ms| == 0 then [s[p..]]
    else [s[p..ms[0].start]] + Pieces(s, ms[1..], ms[0].end)
  }

  /** The text each mark covers. */
  function MarkTexts(s: string, ms: seq<Mark>, p: nat): (r: seq<string>)
    requires Ordered(ms, p, |s|)
    ensures |r| == |ms|
  {
    if |ms| == 0 then []
    else [s[ms[0].start..ms[0].end]] + MarkTexts(s, ms[1..], ms[0].end)
  }

  /** `pieces[0] + seps[0] + pieces[1] + ... + pieces[n]`. */
  function Interleave(pieces: seq<string>, seps: seq<string>): string
    requires |pieces| == |seps| + 1
  {
    if |seps| == 0 then pieces[0]
    else pieces[0] + seps[0] + Interleave(pieces[1..], seps[1..])
  }

  /** Nothing is lost by the split: putting the matched marker texts back
      between the pieces gives the text again. */
  lemma {:induction false} PiecesRejoin(s: string, ms: seq<Mark>, p: nat)
    requires Ordered(ms, p, |s|)
    ensures Interleave(Pieces(s, ms, p), MarkTexts(s, ms, p)) == s[p..]
  {
    if |ms| > 0 {
      var m := ms[0];
      PiecesRejoin(s, ms[1..], m.end);
      var pieces, texts := Pieces(s, ms, p), MarkTexts(s, ms, p);
      assert pieces[1..] == Pieces(s, ms[1..], m.end);
      assert texts[1..] == MarkTexts(s, ms[1..], m.end);
      assert Interleave(pieces, texts) == s[p..m.start] + s[m.start..m.end] + s[m.end..];
      SliceThree(s, p, m.start, m.end);
    }
  }

  lemma SliceThree(s: string, a: nat, b: nat, c: nat)
    requires a <= b <= c <= |s|
    ensures s[a..] == s[a..b] + s[b..c] + s[c..]
  {
  }

  /** Every matched marker text is three dashes and then whitespace. */
  lemma {:induction false} MarkTextsShape(s: string, ms: seq<Mark>, p: nat, i: nat)
    requires Ordered(ms, p, |s|) && Found(s, ms) && i < |ms|
    ensures var t := MarkTexts(s, ms, p)[i];
            |t| >= 3 && t[..3] == "---" && AllSpace(t[3..])
  {
    if i == 0 {
      var m := ms[0];
      assert MarkerOK(s, m.start, m.end);
      var t := s[m.start..m.end];
      assert t[..3] == "---" by {
        assert t[0] == '-' && t[1] == '-' && t[2] == '-';
      }
      forall k | 0 <= k < |t| - 3
        ensures IsSpace(t[3..][k])
      {
        assert t[3..][k] == s[m.start + 3 + k];
      }
    } else {
      MarkTextsShape(s, ms[1..], ms[0].end, i - 1);
      assert MarkTexts(s, ms, p)[i] == MarkTexts(s, ms[1..], ms[0].end)[i - 1];
    }
  }

  /** The marker lines of a document, in order. */
  function Marks(s: string): (r: seq<Mark>)
    ensures Ordered(r, 0, |s|)
  {
    ScanFrom(s, 0)
  }

  /** The marks are exactly the marker lines of the document. */
  lemma MarksExact(s: string)
    ensures forall k :: 0 <= k < |s| ==> (MarkerEnd(s, k).Some? <==> IsStart(Marks(s), k))
  {
    ScanFindsAll(s, 0);
  }

  /** `content.split(/^---\s*$/m)`: one more piece than marker lines. */
  function Split(s: string): (r: seq<string>)
    ensures |r| == |Marks(s)| + 1
  {
    Pieces(s, Marks(s), 0)
  }

  const BadFormat: string := "Invalid post format"

  /** The post page's sections: `Invalid post format` with fewer than three
      pieces; otherwise the header is the second piece, and the body is the
      remaining pieces joined with `---`, trimmed. */
  function Sections(s: string): (r: Result<(string, string), string>)
    ensures r.Failure? <==> |Marks(s)| < 2
    ensures r.Failure? ==> r.error == BadFormat
  {
    var parts := Split(s);
    if |parts| < 3 then Failure(BadFormat)
    else Success((parts[1], Trim(Join(parts[2..], "---"))))
  }

  /** The header is the text between the first two marker lines, whatever
      precedes the first. */
  lemma SectionsHeader(s: string)
    requires Sections(s).Success?
    ensures var ms := Marks(s);
            && ms[0].end <= ms[1].start <= |s|
            && Sections(s).value.0 == s[ms[0].end..ms[1].start]
  {
    var ms := Marks(s);
    assert Ordered(ms[1..], ms[0].end, |s|);
    assert Pieces(s, ms, 0)[1..] == Pieces(s, ms[1..], ms[0].end);
  }

  /** `n` copies of `x`. */
  function Repeat(x: string, n: nat): (r: seq<string>)
    ensures |r| == n && forall i :: 0 <= i < n ==> r[i] == x
  {
    seq(n, _ => x)
  }

  /** `parts.join(sep)` puts the same separator between every two pieces. */
  lemma {:induction false} JoinInterleave(parts: seq<string>, sep: string)
    requires |parts| >= 1
    ensures Join(parts, sep) == Interleave(parts, Repeat(sep, |parts| - 1))
    decreases |parts|
  {
    if |parts| > 1 {
      JoinInterleave(parts[1..], sep);
      assert Repeat(sep, |parts| - 1)[1..] == Repeat(sep, |parts| - 2);
    }
  }

  /** The body is the text after the second marker line in which every
      later marker line, dashes and trailing whitespace, reads as a bare
      `---`, trimmed. */
  lemma SectionsBody(s: string)
    requires Sections(s).Success?
    ensures var ms := Marks(s);
            && Ordered(ms[2..], ms[1].end, |s|)
            && Sections(s).value.1 == Trim(Interleave(Pieces(s, ms[2..], ms[1].end), Repeat("---", |ms| - 2)))
  {
    var ms := Marks(s);
    var ms1 := ms[1..];
    assert Ordered(ms1, ms[0].end, |s|);
    assert Pieces(s, ms, 0)[1..] == Pieces(s, ms1, ms[0].end);
    assert ms1[1..] == ms[2..];
    assert Ordered(ms[2..], ms[1].end, |s|);
    assert Pieces(s, ms1, ms[0].end)[1..] == Pieces(s, ms[2..], ms[1].end);
    JoinInterleave(Pieces(s, ms[2..], ms[1].end), "---");
  }

  /** With exactly two marker lines the body is everything after the
      second one, trimmed. */
  lemma SectionsBodyTwoMarks(s: string)
    requires |Marks(s)| == 2
    ensures Marks(s)[1].end <= |s|
    ensures Sections(s).Success? && Sections(s).value.1 == Trim(s[Marks(s)[1].end..])
  {
    SectionsBody(s);
  }

  /** No line of `x` after its first begins with three dashes. */
  predicate NoDashLine(x: string) {
    forall k :: 0 < k && k + 3 <= |x| && IsLineTerminator(x[k - 1]) ==> !Dashes(x, k)
  }

  /** The shape every post is written in: a marker line, the header lines,
      a marker line, the body. The header section is the text between the
      two markers and the body is the rest, trimmed. */
  lemma SectionsOf(nl: char, h: string, nl2: char, tail: string)
    requires IsLineTerminator(nl) && IsLineTerminator(nl2)
    requires |h| > 0 && !IsSpace(h[0]) && !Dashes(h, 0) && NoDashLine(h)
    requires (|tail| == 0 || IsLineTerminator(tail[0])) && NoDashLine(tail)
    ensures Sections("---" + [nl] + h + [nl2] + "---" + tail)
            == Success(([nl] + h + [nl2], Trim(tail)))
  {
    var s := "---" + [nl] + h + [nl2] + "---" + tail;
    var q2 := 5 + |h|;
    SectionsLayout(nl, h, nl2, tail);
    HeaderNoMarker(s, nl, h, nl2);
    var e2 := CloseMarker(s, q2);
    TailNoMarker(s, e2, tail);
    SectionsAt(s, q2, e2);
    BodyAfterMarker(s, q2 + 3, e2, tail);
  }

  /** The body section does not depend on how much whitespace the closing
      marker's match took. */
  lemma BodyAfterMarker(s: string, b: nat, e: nat, tail: string)
    requires b <= e <= |s| && s[b..] == tail && AllSpace(s[b..e])
    ensures Trim(s[e..]) == Trim(tail)
  {
    assert s[b..] == s[b..e] + s[e..];
    TrimAfterSpace(s[b..e], s[e..]);
  }

  /** The sections of a text that opens with a bare marker line, holds no
      other marker line up to `q2`, has one at `q2` ending at `e2`, and
      none after it. */
  lemma SectionsAt(s: string, q2: nat, e2: nat)
    requires 5 <= q2 < |s| && Dashes(s, 0) && IsLineTerminator(s[3]) && !IsSpace(s[4])
    requires forall k :: 3 <= k < q2 ==> MarkerEnd(s, k).None?
    requires MarkerEnd(s, q2) == Some(e2)
    requires forall k :: e2 <= k < |s| ==> MarkerEnd(s, k).None?
    ensures Sections(s) == Success((s[3..q2], Trim(s[e2..])))
  {
    assert SpaceEnd(s, 3) == 4 by {
      assert IsSpace(s[3]);
    }
    assert MarkerEnd(s, 0) == Some(3);
    ScanSkip(s, 3, q2);
    ScanSkip(s, e2, |s|);
    assert ScanFrom(s, q2) == [Mark(q2, e2)];
    var ms := [Mark(0, 3), Mark(q2, e2)];
    assert Marks(s) == ms;
    assert Pieces(s, ms, 0) == ["", s[3..q2], s[e2..]];
  }

  /** The closing marker of a post: three dashes after a line break,
      followed by nothing or by a line break. Its match covers whitespace
      only after the dashes. */
  lemma CloseMarker(s: string, q2: nat) returns (e2: nat)
    requires q2 >= 1 && Dashes(s, q2) && IsLineTerminator(s[q2 - 1])
    requires q2 + 3 == |s| || IsLineTerminator(s[q2 + 3])
    ensures MarkerEnd(s, q2) == Some(e2)
    ensures q2 + 3 <= e2 <= |s| && AllSpace(s[q2 + 3..e2])
  {
    BackToLineEndLast(s, q2 + 3, SpaceEnd(s, q2 + 3));
    assert LineEnd(s, q2 + 3);
    e2 := MarkerEnd(s, q2).value;
    var x := s[q2 + 3..e2];
    forall k | 0 <= k < |x|
      ensures IsSpace(x[k])
    {
      assert x[k] == s[q2 + 3 + k];
    }
  }

  /** Where the parts of a post land in its text. */
  lemma SectionsLayout(nl: char, h: string, nl2: char, tail: string)
    requires |h| > 0
    ensures var s := "---" + [nl] + h + [nl2] + "---" + tail;
            && Dashes(s, 0) && s[3] == nl && s[4..4 + |h|] == h && s[4] == h[0]
            && s[4 + |h|] == nl2 && Dashes(s, 5 + |h|)
            && s[3..5 + |h|] == [nl] + h + [nl2]
            && s[8 + |h|..] == tail
  {
  }

  /** `x` sits at position `a` of `s`. */
  lemma SliceAt(s: string, a: nat, x: string, i: nat)
    requires a + |x| <= |s| && s[a..a + |x|] == x && i < |x|
    ensures s[a + i] == x[i]
  {
    assert s[a..a + |x|][i] == s[a + i];
  }

  /** No marker line starts between the opening marker and the closing
      one. */
  lemma HeaderNoMarker(s: string, nl: char, h: string, nl2: char)
    requires |s| >= 8 + |h| && Dashes(s, 0) && s[3] == nl
    requires IsLineTerminator(nl) && |h| > 0 && !Dashes(h, 0) && NoDashLine(h)
    requires s[4..4 + |h|] == h && s[4 + |h|] == nl2 && IsLineTerminator(nl2)
    ensures forall k :: 3 <= k < 5 + |h| ==> MarkerEnd(s, k).None?
  {
    forall k | 3 <= k < 5 + |h|
      ensures !Dashes(s, k) || !LineStart(s, k)
    {
      if k == 3 {
        assert s[2] == '-';
      } else if k + 3 <= 4 + |h| {
        SliceAt(s, 4, h, k - 4);
        SliceAt(s, 4, h, k - 3);
        SliceAt(s, 4, h, k - 2);
        if k > 4 {
          SliceAt(s, 4, h, k - 5);
          assert Dashes(s, k) ==> Dashes(h, k - 4);
        }
      } else if k == 4 + |h| {
      } else if k == 3 + |h| {
      } else {
        assert k == 2 + |h|;
      }
    }
  }

  /** No marker line starts in the body after the closing marker. */
  lemma TailNoMarker(s: string, e2: nat, tail: string)
    requires |s| >= |tail| + 3 && s[|s| - |tail|..] == tail && NoDashLine(tail)
    requires Dashes(s, |s| - |tail| - 3)
    requires |s| - |tail| <= e2 <= |s|
    ensures forall k :: e2 <= k < |s| ==> MarkerEnd(s, k).None?
  {
    var b := |s| - |tail|;
    forall k | e2 <= k < |s|
      ensures !Dashes(s, k) || !LineStart(s, k)
    {
      if k == b {
        assert s[k - 1] == '-';
      } else if k + 3 <= |s| {
        SliceAt(s, b, tail, k - b);
        SliceAt(s, b, tail, k - b + 1);
        SliceAt(s, b, tail, k - b + 2);
        SliceAt(s, b, tail, k - b - 1);
        assert Dashes(s, k) ==> Dashes(tail, k - b);
      }
    }
  }
}
