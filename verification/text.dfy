/** The JavaScript string primitives the pages rely on, written out over
    `seq<char>`: `trim`, `split` on one character, `split(/[\r\n]+/)`,
    `join`, `indexOf`, `includes`, `replace` with a string pattern and an
    ASCII `toLowerCase`. */
module Text {
  import opened Wrappers

  /** The code points ECMAScript counts as WhiteSpace or LineTerminator:
      what `trim` strips and what `\s` matches in a regular expression. */
  predicate IsSpace(c: char) {
    || c == '\t' || c == '\n' || c == '\U{0B}' || c == '\U{0C}' || c == '\r' || c == ' '
    || c == '\U{A0}' || c == '\U{1680}' || ('\U{2000}' <= c <= '\U{200A}')
    || c == '\U{2028}' || c == '\U{2029}' || c == '\U{202F}' || c == '\U{205F}'
    || c == '\U{3000}' || c == '\U{FEFF}'
  }

  /** The ECMAScript LineTerminator code points (what multiline `^`/`$` see). */
  predicate IsLineTerminator(c: char) {
    c == '\n' || c == '\r' || c == '\U{2028}' || c == '\U{2029}'
  }

  /** The character class `[\r\n]`. */
  predicate IsNewline(c: char) {
    c == '\r' || c == '\n'
  }

  predicate AllSpace(s: string) {
    forall i :: 0 <= i < |s| ==> IsSpace(s[i])
  }

  /** No whitespace at either end: the shape of every `trim` result. */
  predicate Trimmed(s: string) {
    |s| == 0 || (!IsSpace(s[0]) && !IsSpace(s[|s| - 1]))
  }

  /** `String.prototype.trim`: `s` without its leading and trailing
      whitespace. */
  function Trim(s: string): (r: string)
    ensures Trimmed(r) && |r| <= |s|
  {
    if |s| > 0 && IsSpace(s[0]) then Trim(s[1..])
    else if |s| > 0 && IsSpace(s[|s| - 1]) then Trim(s[..|s| - 1])
    else s
  }

  /** `r` is the slice of `s` at `i`, with only whitespace around it. */
  predicate SliceAmidSpace(s: string, r: string, i: nat) {
    i + |r| <= |s| && r == s[i..i + |r|] && AllSpace(s[..i]) && AllSpace(s[i + |r|..])
  }

  /** What `trim` removes is whitespace, and what it keeps is one contiguous
      slice of the text. */
  lemma {:induction false} TrimSlice(s: string)
    ensures exists i: nat :: SliceAmidSpace(s, Trim(s), i)
  {
    var r := Trim(s);
    if |s| > 0 && IsSpace(s[0]) {
      TrimSlice(s[1..]);
      var i: nat :| SliceAmidSpace(s[1..], r, i);
      SliceAmidSpaceFront(s, r, i);
    } else if |s| > 0 && IsSpace(s[|s| - 1]) {
      TrimSlice(s[..|s| - 1]);
      var i: nat :| SliceAmidSpace(s[..|s| - 1], r, i);
      SliceAmidSpaceBack(s, r, i);
    } else {
      assert s[..0] == [] && s[|s|..] == [];
      assert SliceAmidSpace(s, r, 0);
    }
  }

  lemma SliceAmidSpaceFront(s: string, r: string, i: nat)
    requires |s| > 0 && IsSpace(s[0]) && SliceAmidSpace(s[1..], r, i)
    ensures SliceAmidSpace(s, r, i + 1)
  {
    assert r == s[i + 1..i + 1 + |r|];
    assert s[..i + 1] == [s[0]] + s[1..][..i];
    assert s[i + 1 + |r|..] == s[1..][i + |r|..];
  }

  lemma SliceAmidSpaceBack(s: string, r: string, i: nat)
    requires |s| > 0 && IsSpace(s[|s| - 1]) && SliceAmidSpace(s[..|s| - 1], r, i)
    ensures SliceAmidSpace(s, r, i)
  {
    var s' := s[..|s| - 1];
    assert r == s[i..i + |r|];
    assert s[..i] == s'[..i];
    assert s[i + |r|..] == s'[i + |r|..] + [s[|s| - 1]];
  }

  /** Trimming is determined by the decomposition: whatever whitespace
      surrounds a trimmed text, `trim` gives back exactly that text. */
  lemma {:induction false} TrimOf(pre: string, m: string, post: string)
    requires AllSpace(pre) && AllSpace(post) && Trimmed(m)
    ensures Trim(pre + m + post) == m
    decreases |pre| + |post|
  {
    var s := pre + m + post;
    if |pre| > 0 {
      assert s[1..] == pre[1..] + m + post;
      TrimOf(pre[1..], m, post);
    } else if |post| > 0 && |m| == 0 {
      assert s == post;
      assert s[1..] == "" + "" + post[1..];
      TrimOf("", "", post[1..]);
    } else if |post| > 0 {
      assert s == m + post;
      if |m| > 0 {
        assert !IsSpace(s[0]) by { assert s[0] == m[0]; }
      }
      assert s[..|s| - 1] == pre + m + post[..|post| - 1];
      TrimOf(pre, m, post[..|post| - 1]);
    } else {
      assert s == m;
    }
  }

  /** A text without surrounding whitespace is its own trim. */
  lemma TrimTrimmed(s: string)
    requires Trimmed(s)
    ensures Trim(s) == s
  {
  }

  /** Trimming twice is trimming once. */
  lemma TrimIdempotent(s: string)
    ensures Trim(Trim(s)) == Trim(s)
  {
    var t := Trim(s);
    assert "" + t + "" == t;
    TrimOf("", t, "");
  }

  /** `parts.join(sep)`. */
  function Join(parts: seq<string>, sep: string): string
  {
    if |parts| == 0 then ""
    else if |parts| == 1 then parts[0]
    else parts[0] + sep + Join(parts[1..], sep)
  }

  /** `s.split(c)` for a one-character separator: the texts between
      consecutive occurrences of `c`. */
  function SplitOn(s: string, c: char): (r: seq<string>)
    ensures |r| >= 1
    ensures |r| >= 2 <==> c in s
    ensures forall i :: 0 <= i < |r| ==> c !in r[i]
    ensures Join(r, [c]) == s
  {
    if |s| == 0 then [""]
    else
      var t := SplitOn(s[1..], c);
      if s[0] == c then
        assert s == [c] + s[1..];
        [""] + t
      else
        var r := [[s[0]] + t[0]] + t[1..];
        assert r[1..] == t[1..];
        assert s == [s[0]] + s[1..];
        r
  }

  /** Splitting is the inverse of joining, as long as no part contains the
      separator. */
  lemma {:induction false} SplitOnJoin(parts: seq<string>, c: char)
    requires |parts| >= 1
    requires forall i :: 0 <= i < |parts| ==> c !in parts[i]
    ensures SplitOn(Join(parts, [c]), c) == parts
    decreases |parts|, |parts[0]|
  {
    if |parts[0]| == 0 {
      if |parts| > 1 {
        var rest := Join(parts[1..], [c]);
        assert Join(parts, [c]) == [c] + rest;
        SplitOnSep(rest, c);
        SplitOnJoin(parts[1..], c);
        assert parts == [""] + parts[1..];
      }
    } else {
      var x := parts[0][0];
      var parts' := [parts[0][1..]] + parts[1..];
      assert parts'[1..] == parts[1..];
      assert forall i :: 0 <= i < |parts'| ==> c !in parts'[i] by {
        assert c !in parts[0];
      }
      SplitOnJoin(parts', c);
      JoinCons(x, parts, c);
      assert x != c by { assert x == parts[0][0]; }
      SplitOnChar(x, Join(parts', [c]), c);
      assert parts[0] == [x] + parts'[0];
      assert parts == [[x] + parts'[0]] + parts'[1..];
    }
  }

  /** A leading separator splits off an empty first part. */
  lemma SplitOnSep(rest: string, c: char)
    ensures SplitOn([c] + rest, c) == [""] + SplitOn(rest, c)
  {
    assert ([c] + rest)[1..] == rest;
  }

  /** A leading non-separator character belongs to the first part. */
  lemma SplitOnChar(x: char, rest: string, c: char)
    requires x != c
    ensures SplitOn([x] + rest, c) == [[x] + SplitOn(rest, c)[0]] + SplitOn(rest, c)[1..]
  {
    assert ([x] + rest)[1..] == rest;
  }

  /** Joining after taking the first character off the first part. */
  lemma JoinCons(x: char, parts: seq<string>, c: char)
    requires |parts| >= 1 && |parts[0]| > 0 && parts[0][0] == x
    ensures Join(parts, [c]) == [x] + Join([parts[0][1..]] + parts[1..], [c])
  {
    var parts' := [parts[0][1..]] + parts[1..];
    assert parts'[1..] == parts[1..];
    assert parts[0] == [x] + parts'[0];
  }

  /** Splitting at a separator splits the two sides independently. */
  lemma {:induction false} SplitOnConcat(x: string, y: string, c: char)
    ensures SplitOn(x + [c] + y, c) == SplitOn(x, c) + SplitOn(y, c)
    decreases |x|
  {
    if |x| == 0 {
      assert x + [c] + y == [c] + y;
      SplitOnSep(y, c);
    } else {
      var rest := x[1..] + [c] + y;
      assert x + [c] + y == [x[0]] + rest;
      SplitOnConcat(x[1..], y, c);
      SplitOnCons(x[0], x[1..], rest, SplitOn(y, c), c);
    }
  }

  /** Prepending a character to a text whose pieces start with those of
      `t` does the same to the pieces of `t`. */
  lemma SplitOnCons(x: char, t: string, rest: string, b: seq<string>, c: char)
    requires SplitOn(rest, c) == SplitOn(t, c) + b
    ensures SplitOn([x] + rest, c) == SplitOn([x] + t, c) + b
  {
    if x == c {
      SplitOnConsSep(t, rest, b, c);
    } else {
      SplitOnConsOther(x, t, rest, b, c);
    }
  }

  lemma SplitOnConsSep(t: string, rest: string, b: seq<string>, c: char)
    requires SplitOn(rest, c) == SplitOn(t, c) + b
    ensures SplitOn([c] + rest, c) == SplitOn([c] + t, c) + b
  {
    SplitOnSep(rest, c);
    SplitOnSep(t, c);
    AppendAssoc([""], SplitOn(t, c), b);
  }

  lemma AppendAssoc<T>(p: seq<T>, a: seq<T>, b: seq<T>)
    ensures p + (a + b) == (p + a) + b
  {
  }

  lemma SplitOnConsOther(x: char, t: string, rest: string, b: seq<string>, c: char)
    requires x != c && SplitOn(rest, c) == SplitOn(t, c) + b
    ensures SplitOn([x] + rest, c) == SplitOn([x] + t, c) + b
  {
    var a := SplitOn(t, c);
    SplitOnChar(x, rest, c);
    SplitOnChar(x, t, c);
    ConsHead([x], a, b);
  }

  lemma ConsHead(p: string, a: seq<string>, b: seq<string>)
    requires |a| >= 1
    ensures [p + (a + b)[0]] + (a + b)[1..] == [p + a[0]] + a[1..] + b
  {
    assert (a + b)[0] == a[0];
    assert (a + b)[1..] == a[1..] + b;
  }

  /** A text without the separator is a single piece. */
  lemma SplitOnNone(s: string, c: char)
    requires c !in s
    ensures SplitOn(s, c) == [s]
  {
  }

  /** The position of the first `c` in `s`, or `|s|` when there is none. */
  function FirstIndex(s: string, c: char): (r: nat)
    ensures r <= |s|
    ensures forall k :: 0 <= k < r ==> s[k] != c
    ensures r < |s| <==> c in s
    ensures r < |s| ==> s[r] == c
  {
    if |s| == 0 then 0
    else if s[0] == c then 0
    else 1 + FirstIndex(s[1..], c)
  }

  /** The first two fields of `s.split(c)`: the text before the first `c`
      and the text between the first and the second `c` (or the end). */
  lemma {:induction false} SplitOnFirstFields(s: string, c: char)
    requires c in s
    ensures var i := FirstIndex(s, c);
            var t := s[i + 1..];
            |SplitOn(s, c)| >= 2
            && SplitOn(s, c)[0] == s[..i]
            && SplitOn(s, c)[1] == t[..FirstIndex(t, c)]
  {
    var i := FirstIndex(s, c);
    SplitOnHead(s, c);
    var t := s[i + 1..];
    SplitOnAfterFirst(s, c);
    SplitOnHead(t, c);
  }

  /** The first field of a split is the text before the first separator. */
  lemma {:induction false} SplitOnHead(s: string, c: char)
    ensures SplitOn(s, c)[0] == s[..FirstIndex(s, c)]
  {
    if |s| > 0 && s[0] != c {
      SplitOnHead(s[1..], c);
      assert s[..FirstIndex(s, c)] == [s[0]] + s[1..][..FirstIndex(s[1..], c)];
    }
  }

  /** After the first separator, the split goes on with the rest of the text. */
  lemma {:induction false} SplitOnAfterFirst(s: string, c: char)
    requires c in s
    ensures |SplitOn(s, c)| >= 2
    ensures SplitOn(s, c)[1..] == SplitOn(s[FirstIndex(s, c) + 1..], c)
  {
    if s[0] != c {
      assert c in s[1..] by {
        var k :| 0 <= k < |s| && s[k] == c;
        assert s[1..][k - 1] == c;
      }
      SplitOnAfterFirst(s[1..], c);
      assert s[1..][FirstIndex(s[1..], c) + 1..] == s[FirstIndex(s, c) + 1..];
    }
  }

  /** `pat` occurs in `s` starting at position `k`. */
  predicate OccursAt(s: string, pat: string, k: nat) {
    k + |pat| <= |s| && s[k..k + |pat|] == pat
  }

  /** The position of the first occurrence of `pat` in `s` (`indexOf`). */
  function IndexOf(s: string, pat: string): (r: Option<nat>)
    ensures r.Some? ==> OccursAt(s, pat, r.value)
    ensures r.Some? ==> forall k :: 0 <= k < r.value ==> !OccursAt(s, pat, k)
    ensures r.None? <==> forall k :: 0 <= k <= |s| ==> !OccursAt(s, pat, k)
  {
    IndexFrom(s, pat, 0)
  }

  function IndexFrom(s: string, pat: string, i: nat): (r: Option<nat>)
    requires i <= |s|
    ensures r.Some? ==> i <= r.value && OccursAt(s, pat, r.value)
    ensures r.Some? ==> forall k :: i <= k < r.value ==> !OccursAt(s, pat, k)
    ensures r.None? <==> forall k :: i <= k <= |s| ==> !OccursAt(s, pat, k)
    decreases |s| - i
  {
    if OccursAt(s, pat, i) then Some(i)
    else if i == |s| then None
    else IndexFrom(s, pat, i + 1)
  }

  /** `s.includes(pat)`. */
  predicate Includes(s: string, pat: string) {
    IndexOf(s, pat).Some?
  }

  /** `includes` holds as soon as `pat` occurs somewhere in `s`. */
  lemma IncludesSlice(s: string, pat: string, i: nat)
    requires OccursAt(s, pat, i)
    ensures Includes(s, pat)
  {
  }

  /** `s.replace(pat, rep)` with a string pattern: only the first occurrence
      is replaced, and `s` is returned unchanged when there is none. */
  function ReplaceFirst(s: string, pat: string, rep: string): (r: string)
    ensures IndexOf(s, pat).None? ==> r == s
    ensures IndexOf(s, pat).Some? ==>
              var i := IndexOf(s, pat).value;
              && |r| == |s| - |pat| + |rep|
              && r[..i] == s[..i]
              && r[i..i + |rep|] == rep
              && r[i + |rep|..] == s[i + |pat|..]
  {
    match IndexOf(s, pat)
    case None => s
    case Some(i) => s[..i] + rep + s[i + |pat|..]
  }

  /** The replaced text is the text around the first occurrence with the
      replacement spliced in. */
  lemma ReplaceFirstSplice(s: string, pat: string, rep: string)
    requires IndexOf(s, pat).Some?
    ensures var i := IndexOf(s, pat).value;
            ReplaceFirst(s, pat, rep) == s[..i] + rep + s[i + |pat|..]
  {
    var i := IndexOf(s, pat).value;
    var r := ReplaceFirst(s, pat, rep);
    assert r == r[..i] + r[i..i + |rep|] + r[i + |rep|..];
  }

  /** Replacing a pattern the text starts with removes exactly that prefix. */
  lemma ReplaceLeading(s: string, pat: string)
    requires pat <= s
    ensures ReplaceFirst(s, pat, "") == s[|pat|..]
  {
    assert OccursAt(s, pat, 0);
    assert IndexOf(s, pat) == Some(0);
    ReplaceFirstSplice(s, pat, "");
    assert s[..0] + "" + s[|pat|..] == s[|pat|..];
  }

  /** `String.prototype.toLowerCase`, for ASCII letters. */
  function LowerChar(c: char): char {
    if 'A' <= c <= 'Z' then (c as int + 32) as char else c
  }

  function ToLower(s: string): (r: string)
    ensures |r| == |s|
    ensures forall i :: 0 <= i < |s| ==> r[i] == LowerChar(s[i])
  {
    if |s| == 0 then "" else [LowerChar(s[0])] + ToLower(s[1..])
  }
  /** Lower-casing twice is lower-casing once. */
  lemma ToLowerIdempotent(s: string)
    ensures ToLower(ToLower(s)) == ToLower(s)
  {
    assert forall i :: 0 <= i < |s| ==> LowerChar(LowerChar(s[i])) == LowerChar(s[i]);
  }


  /** The index of the first `[\r\n]` character at or after `i`, or `|s|`. */
  function NextNewline(s: string, i: nat): (r: nat)
    requires i <= |s|
    ensures i <= r <= |s|
    ensures forall k :: i <= k < r ==> !IsNewline(s[k])
    ensures r < |s| ==> IsNewline(s[r])
    decreases |s| - i
  {
    if i == |s| || IsNewline(s[i]) then i else NextNewline(s, i + 1)
  }

  /** The end of the run of `[\r\n]` characters that starts at `i`. */
  function RunEnd(s: string, i: nat): (r: nat)
    requires i <= |s|
    ensures i <= r <= |s|
    ensures forall k :: i <= k < r ==> IsNewline(s[k])
    ensures r < |s| ==> !IsNewline(s[r])
    decreases |s| - i
  {
    if i < |s| && IsNewline(s[i]) then RunEnd(s, i + 1) else i
  }

  /** `s.split(/[\r\n]+/)`: the texts between maximal runs of CR and LF. */
  function SplitLines(s: string): (r: seq<string>)
    ensures |r| >= 1
    ensures forall i :: 0 <= i < |r| ==> forall k :: 0 <= k < |r[i]| ==> !IsNewline(r[i][k])
    decreases |s|
  {
    var q := NextNewline(s, 0);
    if q == |s| then [s]
    else
      var e := RunEnd(s, q);
      [s[..q]] + SplitLines(s[e..])
  }

  predicate NoNewline(s: string) {
    forall k :: 0 <= k < |s| ==> !IsNewline(s[k])
  }

  /** Lines joined with one or more line breaks split back into the same
      lines, provided none of them is empty or holds a line break. */
  lemma {:induction false} SplitLinesJoin(lines: seq<string>, brk: string)
    requires |lines| >= 1 && |brk| >= 1
    requires forall k :: 0 <= k < |brk| ==> IsNewline(brk[k])
    requires forall i :: 0 <= i < |lines| ==> NoNewline(lines[i])
    requires forall i :: 0 < i < |lines| ==> |lines[i]| > 0
    ensures SplitLines(Join(lines, brk)) == lines
    decreases |lines|
  {
    if |lines| == 1 {
      var s := Join(lines, brk);
      assert NextNewline(s, 0) == |s| by { NoNewlineNext(s, 0); }
    } else {
      SplitLinesJoinStep(lines, brk);
      SplitLinesJoin(lines[1..], brk);
      assert lines == [lines[0]] + lines[1..];
    }
  }

  /** The first line of a join splits off, the rest splits as the join of
      the remaining lines. */
  lemma SplitLinesJoinStep(lines: seq<string>, brk: string)
    requires |lines| >= 2 && |brk| >= 1
    requires forall k :: 0 <= k < |brk| ==> IsNewline(brk[k])
    requires NoNewline(lines[0]) && |lines[1]| > 0 && NoNewline(lines[1])
    ensures SplitLines(Join(lines, brk)) == [lines[0]] + SplitLines(Join(lines[1..], brk))
  {
    var s := Join(lines, brk);
    var l0 := lines[0];
    var rest := Join(lines[1..], brk);
    assert s == l0 + brk + rest;
    assert |rest| > 0 && !IsNewline(rest[0]) by {
      JoinHead(lines[1..], brk);
    }
    assert NextNewline(s, 0) == |l0| by {
      NextNewlineAt(s, 0, |l0|);
    }
    assert RunEnd(s, |l0|) == |l0| + |brk| by {
      RunEndAt(s, |l0|, |l0| + |brk|);
    }
    assert s[..|l0|] == l0;
    assert s[|l0| + |brk|..] == rest;
  }

  lemma NoNewlineNext(s: string, i: nat)
    requires i <= |s|
    requires NoNewline(s)
    ensures NextNewline(s, i) == |s|
    decreases |s| - i
  {
  }

  lemma {:induction false} NextNewlineAt(s: string, i: nat, q: nat)
    requires i <= q < |s| && IsNewline(s[q])
    requires forall k :: i <= k < q ==> !IsNewline(s[k])
    ensures NextNewline(s, i) == q
    decreases q - i
  {
    if i < q {
      NextNewlineAt(s, i + 1, q);
    }
  }

  lemma {:induction false} RunEndAt(s: string, i: nat, e: nat)
    requires i <= e < |s| && !IsNewline(s[e])
    requires forall k :: i <= k < e ==> IsNewline(s[k])
    ensures RunEnd(s, i) == e
    decreases e - i
  {
    if i < e {
      RunEndAt(s, i + 1, e);
    }
  }

  /** A join of lines whose first line is non-empty starts with that line. */
  lemma JoinHead(lines: seq<string>, sep: string)
    requires |lines| >= 1 && |lines[0]| > 0
    ensures |Join(lines, sep)| > 0 && Join(lines, sep)[0] == lines[0][0]
  {
  }

  /** Three dashes `---` start at position `k` of `s`. */
  predicate Dashes(s: string, k: nat) {
    k + 3 <= |s| && s[k] == '-' && s[k + 1] == '-' && s[k + 2] == '-'
  }

  /** The end of the run of whitespace (`\s`) characters that starts at `i`. */
  function SpaceEnd(s: string, i: nat): (r: nat)
    requires i <= |s|
    ensures i <= r <= |s|
    ensures forall k :: i <= k < r ==> IsSpace(s[k])
    ensures r < |s| ==> !IsSpace(s[r])
    decreases |s| - i
  {
    if i < |s| && IsSpace(s[i]) then SpaceEnd(s, i + 1) else i
  }

  /** Leading whitespace does not change what `trim` returns. */
  lemma {:induction false} TrimAfterSpace(sp: string, x: string)
    requires AllSpace(sp)
    ensures Trim(sp + x) == Trim(x)
    decreases |sp|
  {
    if |sp| > 0 {
      assert (sp + x)[0] == sp[0];
      assert (sp + x)[1..] == sp[1..] + x;
      TrimAfterSpace(sp[1..], x);
    } else {
      assert sp + x == x;
    }
  }
}
