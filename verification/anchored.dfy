/** The frontmatter block as the list and recent-posts pages find it: the
    regular expression `^---[\r\n]+([\s\S]*?)[\r\n]+---` applied with
    `match` (no `g`, no `m` flag, so `^` is the start of the text only).

    A match is described by a `Cut`: the length of the line-break run after
    the opening dashes, the length of the captured header, and the length of
    the line-break run before the closing dashes. The backtracking engine
    tries the opening run greedily (longest first), the header lazily
    (shortest first) and the closing run greedily; `Match` is written as
    that search and proved to return the first valid cut in that order. */
module Anchored {
  import opened Wrappers
  import opened Text

  datatype Cut = Cut(open: nat, body: nat, close: nat)

  /** `s[i..j]` consists of CR and LF characters only: it lies within the
      run of line breaks that starts at `i`. */
  predicate NewlinesBetween(s: string, i: nat, j: nat) {
    i <= |s| && i <= j <= RunEnd(s, i)
  }

  /** `[\r\n]{n}---` matches at `p`, with `n >= 1`. */
  predicate CloseOK(s: string, p: nat, n: nat) {
    n >= 1 && NewlinesBetween(s, p, p + n) && Dashes(s, p + n)
  }

  /** A header of length `len` starting at `b`, followed by a closing fence
      whose line-break run has length `n`. */
  predicate BodyOK(s: string, b: nat, len: nat, n: nat) {
    b + len <= |s| && CloseOK(s, b + len, n)
  }

  /** The whole pattern matches `s` from position 0 along the cut `c`. */
  predicate Valid(s: string, c: Cut) {
    && Dashes(s, 0)
    && c.open >= 1
    && NewlinesBetween(s, 3, 3 + c.open)
    && BodyOK(s, 3 + c.open, c.body, c.close)
  }

  /** `NewlinesBetween` says what its name says: every character in the
      range is CR or LF, and every such range is within the run. */
  lemma NewlinesBetweenChars(s: string, i: nat, j: nat)
    requires i <= j <= |s|
    ensures NewlinesBetween(s, i, j) <==> forall k :: i <= k < j ==> IsNewline(s[k])
  {
  }

  /** The engine prefers `a` to `b`: a longer opening run, then a shorter
      header, then a longer closing run. */
  predicate Before(a: Cut, b: Cut) {
    || a.open > b.open
    || (a.open == b.open && a.body < b.body)
    || (a.open == b.open && a.body == b.body && a.close > b.close)
  }

  /** The closing run is fixed by where it starts: it is the whole run of
      line breaks there, since the dashes that follow are not line breaks. */
  lemma CloseIsRun(s: string, p: nat, n: nat)
    requires CloseOK(s, p, n)
    ensures p + n == RunEnd(s, p)
  {
    assert s[p + n] == '-';
  }

  /** The greedy closing run: tries `n`, `n - 1`, ..., `1` line breaks
      before the dashes. */
  function CloseFrom(s: string, p: nat, n: nat): (r: Option<nat>)
    requires NewlinesBetween(s, p, p + n)
    ensures r.Some? ==> 1 <= r.value <= n && Dashes(s, p + r.value)
  {
    if n == 0 then None
    else if Dashes(s, p + n) then Some(n)
    else CloseFrom(s, p, n - 1)
  }

  /** `CloseFrom` finds a closing fence exactly when one with at most `n`
      line breaks exists. */
  lemma {:induction false} CloseFromFirst(s: string, p: nat, n: nat)
    requires NewlinesBetween(s, p, p + n)
    ensures CloseFrom(s, p, n).Some? ==> CloseOK(s, p, CloseFrom(s, p, n).value)
    ensures CloseFrom(s, p, n).None? <==> forall m :: 1 <= m <= n ==> !CloseOK(s, p, m)
  {
    if n > 0 {
      if Dashes(s, p + n) {
        assert CloseOK(s, p, n);
      } else {
        CloseFromFirst(s, p, n - 1);
      }
    }
  }

  /** `[\r\n]+---` at `p`, trying the whole run of line breaks first. */
  function CloseAt(s: string, p: nat): (r: Option<nat>)
    requires p <= |s|
    ensures r.Some? ==> r.value >= 1 && Dashes(s, p + r.value)
  {
    CloseFrom(s, p, RunEnd(s, p) - p)
  }

  /** `CloseAt` finds the closing fence at `p` whenever there is one. */
  lemma CloseAtFirst(s: string, p: nat)
    requires p <= |s|
    ensures CloseAt(s, p).Some? ==> CloseOK(s, p, CloseAt(s, p).value)
    ensures CloseAt(s, p).None? <==> forall m :: !CloseOK(s, p, m)
  {
    CloseFromFirst(s, p, RunEnd(s, p) - p);
  }

  /** The lazy header: tries lengths `len`, `len + 1`, ... up to the end of
      the text, returning the first length with a closing fence after it. */
  function BodyFrom(s: string, b: nat, len: nat): (r: Option<(nat, nat)>)
    requires b <= |s|
    ensures r.Some? ==> len <= r.value.0 && b + r.value.0 <= |s|
    decreases |s| - (b + len)
  {
    if b + len > |s| then None
    else match CloseAt(s, b + len)
      case Some(n) => Some((len, n))
      case None => BodyFrom(s, b, len + 1)
  }

  /** What `BodyFrom` returns is the shortest header from `len` on that a
      closing fence follows. */
  lemma {:induction false} BodyFromFound(s: string, b: nat, len: nat)
    requires b <= |s|
    ensures var r := BodyFrom(s, b, len);
            r.Some? ==> BodyOK(s, b, r.value.0, r.value.1)
    ensures var r := BodyFrom(s, b, len);
            r.Some? ==> forall l, n :: len <= l < r.value.0 ==> !BodyOK(s, b, l, n)
    decreases |s| - (b + len)
  {
    if b + len <= |s| {
      CloseAtFirst(s, b + len);
      match CloseAt(s, b + len)
      case Some(n) =>
        assert BodyOK(s, b, len, n);
      case None =>
        BodyFromFound(s, b, len + 1);
        assert forall n :: !BodyOK(s, b, len, n);
    }
  }

  /** `BodyFrom` fails exactly when no header from `len` on is followed by
      a closing fence. */
  lemma {:induction false} BodyFromNone(s: string, b: nat, len: nat)
    requires b <= |s|
    ensures BodyFrom(s, b, len).None? <==> forall l, n :: len <= l ==> !BodyOK(s, b, l, n)
    decreases |s| - (b + len)
  {
    if b + len <= |s| {
      CloseAtFirst(s, b + len);
      match CloseAt(s, b + len)
      case Some(n) =>
        assert BodyOK(s, b, len, n);
      case None =>
        BodyFromNone(s, b, len + 1);
        assert forall n :: !BodyOK(s, b, len, n);
    }
  }

  /** The greedy opening run: tries `n`, `n - 1`, ..., `1` line breaks
      after the opening dashes, each with the lazy header search. */
  function OpenFrom(s: string, n: nat): (r: Option<Cut>)
    requires Dashes(s, 0) && NewlinesBetween(s, 3, 3 + n)
    ensures r.Some? ==> 1 <= r.value.open <= n
  {
    if n == 0 then None
    else match BodyFrom(s, 3 + n, 0)
      case Some((len, m)) => Some(Cut(n, len, m))
      case None => OpenFrom(s, n - 1)
  }

  /** `OpenFrom` returns the valid cut preferred to every valid cut whose
      opening run is at most `n`, and fails exactly when there is none. */
  lemma {:induction false} OpenFromFirst(s: string, n: nat)
    requires Dashes(s, 0) && NewlinesBetween(s, 3, 3 + n)
    ensures OpenFrom(s, n).Some? ==> Valid(s, OpenFrom(s, n).value)
    ensures OpenFrom(s, n).Some? ==>
              forall c :: Valid(s, c) && c.open <= n ==> !Before(c, OpenFrom(s, n).value)
    ensures OpenFrom(s, n).None? <==> forall c :: Valid(s, c) ==> c.open > n
  {
    if n > 0 {
      match BodyFrom(s, 3 + n, 0)
      case Some((len, m)) =>
        BodyFromFound(s, 3 + n, 0);
        OpenFound(s, n, len, m);
      case None =>
        OpenMissed(s, n);
        OpenFromFirst(s, n - 1);
    }
  }

  /** No header shorter than `len` starting at `b` is followed by a closing
      fence. */
  ghost predicate NoShorterBody(s: string, b: nat, len: nat) {
    forall l, n :: 0 <= l < len ==> !BodyOK(s, b, l, n)
  }

  /** When the header search succeeds for an opening run of `n`, its cut is
      valid and preferred to every valid cut with an opening run of at most
      `n`. */
  lemma OpenFound(s: string, n: nat, len: nat, m: nat)
    requires Dashes(s, 0) && n >= 1 && NewlinesBetween(s, 3, 3 + n)
    requires BodyOK(s, 3 + n, len, m)
    requires NoShorterBody(s, 3 + n, len)
    ensures Valid(s, Cut(n, len, m))
    ensures forall c :: Valid(s, c) && c.open <= n ==> !Before(c, Cut(n, len, m))
  {
    forall c | Valid(s, c) && c.open <= n
      ensures !Before(c, Cut(n, len, m))
    {
      NotBefore(s, n, len, m, c);
    }
  }

  /** One cut against the search's result for an opening run of `n`. */
  lemma NotBefore(s: string, n: nat, len: nat, m: nat, c: Cut)
    requires BodyOK(s, 3 + n, len, m) && NoShorterBody(s, 3 + n, len)
    requires c.open <= n && BodyOK(s, 3 + c.open, c.body, c.close)
    ensures !Before(c, Cut(n, len, m))
  {
    if c.open == n {
      NotShorter(s, 3 + n, len, c.body, c.close);
      if c.body == len {
        SameClose(s, 3 + n, len, c.close, m);
      }
    }
  }

  /** No valid header is shorter than the shortest one. */
  lemma NotShorter(s: string, b: nat, len: nat, l: nat, n: nat)
    requires NoShorterBody(s, b, len) && BodyOK(s, b, l, n)
    ensures l >= len
  {
  }

  /** A header of a given length has one closing run only. */
  lemma SameClose(s: string, b: nat, len: nat, n: nat, m: nat)
    requires BodyOK(s, b, len, n) && BodyOK(s, b, len, m)
    ensures n == m
  {
    CloseIsRun(s, b + len, n);
    CloseIsRun(s, b + len, m);
  }

  /** When the header search fails for an opening run of `n`, no valid cut
      has an opening run of exactly `n`. */
  lemma OpenMissed(s: string, n: nat)
    requires Dashes(s, 0) && NewlinesBetween(s, 3, 3 + n)
    requires BodyFrom(s, 3 + n, 0).None?
    ensures forall c :: Valid(s, c) ==> c.open != n
  {
    BodyFromNone(s, 3 + n, 0);
  }

  /** `text.match(/^---[\r\n]+([\s\S]*?)[\r\n]+---/)`: the cut the engine
      settles on, if any. */
  function Match(s: string): (r: Option<Cut>)
    ensures r.Some? ==> Valid(s, r.value)
  {
    if Dashes(s, 0) then
      OpenFromFirst(s, RunEnd(s, 3) - 3);
      OpenFrom(s, RunEnd(s, 3) - 3)
    else None
  }

  /** The engine's cut is the valid cut no other valid cut is preferred to,
      and there is none exactly when the pattern matches nowhere. */
  lemma MatchFirst(s: string)
    ensures Match(s).Some? ==> forall c :: Valid(s, c) ==> !Before(c, Match(s).value)
    ensures Match(s).None? <==> forall c :: !Valid(s, c)
  {
    if Dashes(s, 0) {
      OpenFromFirst(s, RunEnd(s, 3) - 3);
    }
  }

  /** Where the captured header starts. */
  function HeaderStart(c: Cut): nat {
    3 + c.open
  }

  /** Where the whole match ends, just after the closing dashes. */
  function MatchEnd(c: Cut): nat {
    3 + c.open + c.body + c.close + 3
  }

  /** The frontmatter block of a post: the captured header (`match[1]`) and
      the article text, which is the text with the match replaced by
      nothing (`replace` with the same pattern finds the same match), then
      trimmed. */
  function Block(s: string): (r: Option<(string, string)>)
    ensures r.Some? ==> |r.value.0| + |r.value.1| + 8 <= |s|
  {
    match Match(s)
    case None => None
    case Some(c) => Some((s[HeaderStart(c)..HeaderStart(c) + c.body], Trim(s[MatchEnd(c)..])))
  }

  /** A header that starts and ends with a character other than CR or LF
      and holds no line that begins with `---`. */
  predicate PlainHeader(h: string) {
    && |h| > 0
    && !IsNewline(h[0])
    && !IsNewline(h[|h| - 1])
    && forall k :: 0 <= k < |h| && IsNewline(h[k]) ==> !Dashes(h, k + 1)
  }

  /** A run of one or more line breaks. */
  predicate LineBreaks(b: string) {
    |b| >= 1 && forall k :: 0 <= k < |b| ==> IsNewline(b[k])
  }

  /** A run of line breaks laid out at `i` and followed by another
      character is the whole run there. */
  lemma RunOf(s: string, i: nat, b: string)
    requires LineBreaks(b) && i + |b| < |s| && s[i..i + |b|] == b && !IsNewline(s[i + |b|])
    ensures RunEnd(s, i) == i + |b|
  {
    forall k | i <= k < i + |b|
      ensures IsNewline(s[k])
    {
      assert s[k] == b[k - i];
    }
    RunEndAt(s, i, i + |b|);
  }

  /** The shape every post is written in: the block captures exactly the
      header between the fences, and the article is the trimmed remainder. */
  lemma BlockOf(b1: string, h: string, b2: string, rest: string)
    requires LineBreaks(b1) && LineBreaks(b2) && PlainHeader(h)
    ensures Block("---" + b1 + h + b2 + "---" + rest) == Some((h, Trim(rest)))
  {
    var s := "---" + b1 + h + b2 + "---" + rest;
    Layout(b1, h, b2, rest);
    BlockOfLayout(s, b1, h, b2, rest);
  }

  /** `BlockOf` for a text known only through where its parts land. */
  lemma BlockOfLayout(s: string, b1: string, h: string, b2: string, rest: string)
    requires LineBreaks(b1) && LineBreaks(b2) && PlainHeader(h)
    requires var p := 3 + |b1| + |h|;
             && p + |b2| + 3 <= |s|
             && Dashes(s, 0)
             && s[3..3 + |b1|] == b1
             && s[3 + |b1|..p] == h
             && s[3 + |b1|] == h[0]
             && s[p..p + |b2|] == b2
             && Dashes(s, p + |b2|)
             && s[p + |b2| + 3..] == rest
    ensures Block(s) == Some((h, Trim(rest)))
  {
    var c := Cut(|b1|, |h|, |b2|);
    LayoutMatch(s, b1, h, b2);
    BlockOfCut(s, c, h, rest);
  }

  /** The block of a text whose cut is known, in terms of the header and
      the remainder found at that cut. */
  lemma BlockOfCut(s: string, c: Cut, h: string, rest: string)
    requires Match(s) == Some(c)
    requires HeaderStart(c) + c.body <= |s| && s[HeaderStart(c)..HeaderStart(c) + c.body] == h
    requires MatchEnd(c) <= |s| && s[MatchEnd(c)..] == rest
    ensures Block(s) == Some((h, Trim(rest)))
  {
    BlockIs(s, c);
  }

  /** The engine's cut for a text laid out as a post. */
  lemma LayoutMatch(s: string, b1: string, h: string, b2: string)
    requires LineBreaks(b1) && LineBreaks(b2) && PlainHeader(h)
    requires var p := 3 + |b1| + |h|;
             && p + |b2| + 3 <= |s|
             && Dashes(s, 0)
             && s[3..3 + |b1|] == b1
             && s[3 + |b1|..p] == h
             && s[3 + |b1|] == h[0]
             && s[p..p + |b2|] == b2
             && Dashes(s, p + |b2|)
    ensures Match(s) == Some(Cut(|b1|, |h|, |b2|))
  {
    var p := 3 + |b1| + |h|;
    RunOf(s, 3, b1);
    assert s[p + |b2|] == '-';
    RunOf(s, p, b2);
    MatchPlain(s, |b1|, h, |b2|);
  }

  /** A text has no frontmatter block exactly when the pattern matches it
      along no cut at all. */
  lemma BlockNone(s: string)
    ensures Block(s).None? <==> forall c :: !Valid(s, c)
  {
    MatchFirst(s);
  }

  /** The block read off the engine's cut. */
  lemma BlockIs(s: string, c: Cut)
    requires Match(s) == Some(c)
    ensures HeaderStart(c) + c.body <= MatchEnd(c) <= |s|
    ensures Block(s) == Some((s[HeaderStart(c)..HeaderStart(c) + c.body], Trim(s[MatchEnd(c)..])))
  {
  }

  /** Where the parts of a post land in its text. */
  lemma Layout(b1: string, h: string, b2: string, rest: string)
    requires |b1| >= 1 && |h| >= 1 && |b2| >= 1
    ensures var s := "---" + b1 + h + b2 + "---" + rest;
            var p := 3 + |b1| + |h|;
            && Dashes(s, 0)
            && s[3..3 + |b1|] == b1
            && s[3 + |b1|..p] == h
            && s[3 + |b1|] == h[0]
            && s[p..p + |b2|] == b2
            && s[p] == b2[0]
            && Dashes(s, p + |b2|)
            && s[p + |b2| + 3..] == rest
  {
  }

  /** The engine's cut for a text that opens with a run of `n1` line breaks,
      continues with a plain header `h` and closes with a run of `n2` line
      breaks and the dashes. */
  lemma MatchPlain(s: string, n1: nat, h: string, n2: nat)
    requires Dashes(s, 0) && n1 >= 1 && n2 >= 1 && PlainHeader(h)
    requires 3 + n1 + |h| < |s| && s[3 + n1..3 + n1 + |h|] == h
    requires RunEnd(s, 3) == 3 + n1
    requires RunEnd(s, 3 + n1 + |h|) == 3 + n1 + |h| + n2 && Dashes(s, 3 + n1 + |h| + n2)
    ensures Match(s) == Some(Cut(n1, |h|, n2))
  {
    var c := Cut(n1, |h|, n2);
    RunStart(s, 3 + n1 + |h|);
    forall d | Valid(s, d)
      ensures !Before(d, c)
    {
      PlainNotBefore(s, n1, h, n2, d);
    }
    MatchIs(s, c);
  }

  /** A non-empty run starts with a line break. */
  lemma RunStart(s: string, i: nat)
    requires i < |s| && RunEnd(s, i) > i
    ensures IsNewline(s[i])
  {
  }

  /** One valid cut against the cut of a plain header. */
  lemma PlainNotBefore(s: string, n1: nat, h: string, n2: nat, d: Cut)
    requires n1 >= 1 && n2 >= 1 && PlainHeader(h)
    requires 3 + n1 + |h| < |s| && s[3 + n1..3 + n1 + |h|] == h
    requires RunEnd(s, 3) == 3 + n1
    requires RunEnd(s, 3 + n1 + |h|) == 3 + n1 + |h| + n2 && IsNewline(s[3 + n1 + |h|])
    requires Valid(s, d)
    ensures !Before(d, Cut(n1, |h|, n2))
  {
    var p := 3 + n1 + |h|;
    if d.open == n1 && d.body < |h| {
      PlainHeaderNoClose(s, 3 + n1, h, d.body, d.close);
    } else if d.open == n1 && d.body == |h| {
      CloseIsRun(s, p, d.close);
    }
  }

  /** The valid cut that no other valid cut is preferred to is the one the
      engine returns. */
  lemma MatchIs(s: string, c: Cut)
    requires Valid(s, c)
    requires forall d :: Valid(s, d) ==> !Before(d, c)
    ensures Match(s) == Some(c)
  {
    MatchFirst(s);
    var r := Match(s).value;
    assert !Before(c, r) && !Before(r, c);
  }

  /** Inside a plain header no closing fence can start, when a line break
      follows the header. */
  lemma PlainHeaderNoClose(s: string, b: nat, h: string, l: nat, n: nat)
    requires PlainHeader(h) && b + |h| < |s| && s[b..b + |h|] == h && IsNewline(s[b + |h|])
    requires l < |h|
    ensures !BodyOK(s, b, l, n)
  {
    var e := l + n;
    if n >= 1 {
      if e >= |h| {
        assert s[b + |h| - 1] == h[|h| - 1];
      } else if e + 3 <= |h| {
        assert s[b + e - 1] == h[e - 1];
        assert s[b + e] == h[e] && s[b + e + 1] == h[e + 1] && s[b + e + 2] == h[e + 2];
      }
    }
  }

  /** The regular expression cannot match an empty header between fences
      that are only one line break apart, since the opening run takes that
      line break and nothing is left for the closing run. */
  lemma {:induction false} AdjacentFencesNoMatch(nl: char, rest: string)
    requires IsNewline(nl) && NoNewline(rest)
    ensures Block("---" + [nl] + "---" + rest).None?
  {
    var s := "---" + [nl] + "---" + rest;
    assert s[3..4] == [nl] && s[4] == '-' && s[5] == '-' && s[6] == '-';
    assert s[7..] == rest;
    RunOf(s, 3, [nl]);
    BlockNone(s);
    forall c | Valid(s, c)
      ensures false
    {
    }
  }

  /** With two or more line breaks between the fences, the pattern matches
      with an empty header: the opening run gives one line break back. */
  lemma {:induction false} BlankLineEmptyHeader(b: string, rest: string)
    requires LineBreaks(b) && |b| >= 2 && NoNewline(rest)
    ensures Block("---" + b + "---" + rest) == Some(("", Trim(rest)))
  {
    var s := "---" + b + "---" + rest;
    assert s[3..3 + |b|] == b && Dashes(s, 3 + |b|);
    assert s[6 + |b|..] == rest;
    RunOf(s, 3, b);
    MatchBlank(s, |b|);
    BlockIs(s, Cut(|b| - 1, 0, 1));
  }

  /** A run of line breaks seen from inside ends where it ends seen from
      its start. */
  lemma {:induction false} RunEndSuffix(s: string, i: nat, j: nat)
    requires i <= |s| && i <= j <= RunEnd(s, i)
    ensures RunEnd(s, j) == RunEnd(s, i)
    decreases j - i
  {
    if i < j {
      RunEndSuffix(s, i + 1, j);
    }
  }

  /** The engine's cut when the opening dashes are followed by `n >= 2` line
      breaks, the dashes again, and no further line break. */
  lemma MatchBlank(s: string, n: nat)
    requires Dashes(s, 0) && n >= 2 && RunEnd(s, 3) == 3 + n && Dashes(s, 3 + n)
    requires forall k :: 6 + n <= k < |s| ==> !IsNewline(s[k])
    ensures Match(s) == Some(Cut(n - 1, 0, 1))
  {
    var c := Cut(n - 1, 0, 1);
    RunEndSuffix(s, 3, 3 + n - 1);
    forall d | Valid(s, d)
      ensures !Before(d, c)
    {
      if d.open == n - 1 && d.body == 0 {
        CloseIsRun(s, 3 + n - 1, d.close);
      }
    }
    MatchIs(s, c);
  }
}
