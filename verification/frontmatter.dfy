/** The line-oriented frontmatter parser that BlogList, RecentBlogs and
    BlogDetail each carry a copy of (src/pages/BlogList.tsx:66-90,
    src/components/RecentBlogs.tsx:42-66, src/pages/BlogDetail.tsx:143-170).
    Its only state besides the record is the key named most recently. */
module Frontmatter {
  import opened Wrappers
  import opened Text

  /** The parsed header: the string-valued keys, and the `tags` list (the one
      key whose value is a list). `tags` is never a key of `fields`. */
  datatype Record = Record(fields: map<string, string>, tags: seq<string>)

  /** The record built so far and the key named by the latest `key:` line. */
  datatype State = State(rec: Record, current: Option<string>)

  /** Lines the parser ignores: empty once trimmed, or a `#` comment. */
  predicate IsSkipped(t: string) {
    t == "" || t[0] == '#'
  }

  /** The key of a trimmed line holding a colon: the trimmed text before
      its first colon. */
  function KeyOf(t: string): string
    requires ':' in t
  {
    Trim(t[..FirstIndex(t, ':')])
  }

  /** The value of a trimmed line holding a colon: the trimmed text between
      its first and second colon (or the end of the line). */
  function ValueOf(t: string): string
    requires ':' in t
  {
    var u := t[FirstIndex(t, ':') + 1..];
    Trim(u[..FirstIndex(u, ':')])
  }

  /** Assigning a string to `__proto__` of a plain object is a no-op in
      JavaScript, so that key can never be stored. */
  const ProtoKey: string := "__proto__"

  /** `const [key, value] = t.split(':').map(s => s.trim())` on a line
      holding a colon. */
  function KeyValue(t: string): (r: (string, string))
    requires ':' in t
    ensures r == (KeyOf(t), ValueOf(t))
  {
    var parts := SplitOn(t, ':');
    SplitOnFirstFields(t, ':');
    (Trim(parts[0]), Trim(parts[1]))
  }

  /** `t.replace('- ', '').trim()` on a line starting with `- `: the first
      occurrence of `- ` is the one at the start. */
  function ItemText(t: string): (r: string)
    requires "- " <= t
    ensures r == Trim(t[2..])
  {
    ReplaceLeading(t, "- ");
    Trim(ReplaceFirst(t, "- ", ""))
  }

  /** What every step keeps: no key is removed, `tags` never becomes a
      string-valued key, `__proto__` is never stored, and appended tags are
      clean. */
  predicate Keeps(st: State, r: State) {
    && st.rec.fields.Keys <= r.rec.fields.Keys
    && ("tags" !in st.rec.fields ==> "tags" !in r.rec.fields)
    && (ProtoKey !in st.rec.fields ==> ProtoKey !in r.rec.fields)
    && (AllClean(st.rec.tags) ==> AllClean(r.rec.tags))
  }

  /** One line of the header. */
  function Step(st: State, line: string): (r: State)
    ensures Keeps(st, r)
  {
    var t := Trim(line);
    if IsSkipped(t) then st
    else if ':' in t then
      var (key, value) := KeyValue(t);
      var rec :=
        if key == "tags" then st.rec.(tags := [])
        else if value != "" && key != ProtoKey then st.rec.(fields := st.rec.fields[key := value])
        else st.rec;
      State(rec, Some(key))
    else if "- " <= t && st.current == Some("tags") then
      ItemTagClean(t);
      State(st.rec.(tags := st.rec.tags + [ItemText(t)]), st.current)
    else st
  }

  /** The lines in order, from state `st`; what every step keeps, the
      whole run keeps. */
  function Run(st: State, lines: seq<string>): (r: State)
    ensures Keeps(st, r)
    decreases |lines|
  {
    if |lines| == 0 then st else Run(Step(st, lines[0]), lines[1..])
  }

  /** Parses header lines into a record, starting from `init` with no
      current key. */
  function ParseLines(lines: seq<string>, init: Record): Record
  {
    Run(State(init, None), lines).rec
  }

  /** Parses a header block: split on CR/LF runs, then line by line. The
      starting keys stay, `tags` and `__proto__` are never stored, and
      every collected tag is clean. */
  function ParseHeader(header: string, init: Record): (r: Record)
    ensures init.fields.Keys <= r.fields.Keys
    ensures "tags" !in init.fields ==> "tags" !in r.fields
    ensures ProtoKey !in init.fields ==> ProtoKey !in r.fields
    ensures AllClean(init.tags) ==> AllClean(r.tags)
  {
    ParseLines(SplitLines(header), init)
  }

  /** The starting record of BlogList and RecentBlogs: nothing set. */
  const EmptyRecord: Record := Record(map[], [])

  /** A tag as the parser appends it: non-empty, no surrounding whitespace. */
  predicate CleanTag(tag: string) {
    tag != "" && Trimmed(tag)
  }

  predicate AllClean(tags: seq<string>) {
    forall i :: 0 <= i < |tags| ==> CleanTag(tags[i])
  }

  /** A blank or comment line changes neither the record nor the current
      key. */
  lemma StepSkipped(st: State, line: string)
    requires IsSkipped(Trim(line))
    ensures Step(st, line) == st
  {
  }

  /** A line holding a colon names the current key: the trimmed text before
      the first colon. For every key but `tags` the stored value is only the
      trimmed text between the first and second colon; an empty value keeps
      the earlier one. A `tags` line always resets the list. */
  lemma StepKeyLine(st: State, line: string)
    requires !IsSkipped(Trim(line)) && ':' in Trim(line)
    ensures Step(st, line).current == Some(KeyOf(Trim(line)))
    ensures KeyOf(Trim(line)) == "tags" ==> Step(st, line).rec == Record(st.rec.fields, [])
    ensures KeyOf(Trim(line)) != "tags" && ValueOf(Trim(line)) != "" && KeyOf(Trim(line)) != ProtoKey ==>
              Step(st, line).rec == Record(st.rec.fields[KeyOf(Trim(line)) := ValueOf(Trim(line))], st.rec.tags)
    ensures KeyOf(Trim(line)) != "tags" && (ValueOf(Trim(line)) == "" || KeyOf(Trim(line)) == ProtoKey) ==>
              Step(st, line).rec == st.rec
  {
  }

  /** A `- ` line without a colon appends its trimmed remainder to the tags,
      but only while the current key is `tags`; otherwise it is dropped. */
  lemma StepItem(st: State, line: string)
    requires !IsSkipped(Trim(line)) && ':' !in Trim(line) && "- " <= Trim(line)
    ensures Step(st, line).current == st.current
    ensures st.current == Some("tags") ==>
              Step(st, line).rec == Record(st.rec.fields, st.rec.tags + [Trim(Trim(line)[2..])])
    ensures st.current != Some("tags") ==> Step(st, line) == st
  {
  }

  /** Any other line, one with neither a colon nor a leading `- `, is
      ignored. */
  lemma StepOther(st: State, line: string)
    requires !IsSkipped(Trim(line)) && ':' !in Trim(line) && !("- " <= Trim(line))
    ensures Step(st, line) == st
  {
  }

  /** A text holding a non-whitespace character does not trim to empty. */
  lemma TrimNonEmpty(s: string, k: nat)
    requires k < |s| && !IsSpace(s[k])
    ensures Trim(s) != ""
  {
    var r := Trim(s);
    TrimSlice(s);
    var i: nat :| SliceAmidSpace(s, r, i);
    forall j | 0 <= j < i
      ensures IsSpace(s[j])
    {
      assert s[..i][j] == s[j];
    }
    forall j | i + |r| <= j < |s|
      ensures IsSpace(s[j])
    {
      assert s[i + |r|..][j - i - |r|] == s[j];
    }
  }

  /** The remainder of a trimmed `- ` line is a clean tag once trimmed. */
  lemma ItemTagClean(t: string)
    requires Trimmed(t) && "- " <= t
    ensures CleanTag(Trim(t[2..]))
  {
    assert |t| >= 3;
    assert t[2..][|t| - 3] == t[|t| - 1];
    TrimNonEmpty(t[2..], |t| - 3);
  }

  /** Whether `line` stores a value under `key`: a key line naming it with
      a non-empty value. */
  predicate Stores(line: string, key: string) {
    var t := Trim(line);
    !IsSkipped(t) && ':' in t && KeyOf(t) == key && ValueOf(t) != ""
  }

  /** A key that no line stores a value under keeps the value it started
      with, or stays absent. */
  lemma {:induction false} RunKeepsField(st: State, lines: seq<string>, key: string)
    requires forall i :: 0 <= i < |lines| ==> !Stores(lines[i], key)
    ensures key in Run(st, lines).rec.fields <==> key in st.rec.fields
    ensures key in st.rec.fields ==> Run(st, lines).rec.fields[key] == st.rec.fields[key]
    decreases |lines|
  {
    if |lines| > 0 {
      var t := Trim(lines[0]);
      if !IsSkipped(t) && ':' in t {
        StepKeyLine(st, lines[0]);
      }
      assert forall i :: 0 <= i < |lines| - 1 ==> lines[1..][i] == lines[i + 1];
      RunKeepsField(Step(st, lines[0]), lines[1..], key);
    }
  }

  /** Running two blocks of lines is running the first, then the second. */
  lemma {:induction false} RunAppend(st: State, a: seq<string>, b: seq<string>)
    ensures Run(st, a + b) == Run(Run(st, a), b)
    decreases |a|
  {
    if |a| == 0 {
      assert a + b == b;
    } else {
      assert (a + b)[1..] == a[1..] + b;
      RunAppend(Step(st, a[0]), a[1..], b);
    }
  }

  /** The last line storing a value under an ordinary key decides it: the
      value is the text between that line's first and second colon. */
  lemma LastStoreWins(st: State, lines: seq<string>, key: string, i: nat)
    requires i < |lines| && Stores(lines[i], key) && key != "tags" && key != ProtoKey
    requires forall j :: i < j < |lines| ==> !Stores(lines[j], key)
    ensures key in Run(st, lines).rec.fields
    ensures Run(st, lines).rec.fields[key] == ValueOf(Trim(lines[i]))
  {
    assert lines == lines[..i] + lines[i..];
    RunAppend(st, lines[..i], lines[i..]);
    var mid := Run(st, lines[..i]);
    StepKeyLine(mid, lines[i]);
    var rest := lines[i + 1..];
    assert forall j :: 0 <= j < |rest| ==> rest[j] == lines[i + 1 + j];
    RunKeepsField(Step(mid, lines[i]), rest, key);
  }

  /** A non-empty value is only ever replaced by another non-empty one. */
  lemma {:induction false} RunKeepsNonEmpty(st: State, lines: seq<string>, key: string)
    requires key in st.rec.fields && st.rec.fields[key] != ""
    ensures key in Run(st, lines).rec.fields && Run(st, lines).rec.fields[key] != ""
    decreases |lines|
  {
    if |lines| > 0 {
      var t := Trim(lines[0]);
      if !IsSkipped(t) && ':' in t {
        StepKeyLine(st, lines[0]);
      }
      RunKeepsNonEmpty(Step(st, lines[0]), lines[1..], key);
    }
  }

  /** An ordinary key some line stores a value under ends up non-empty. */
  lemma StoredNonEmpty(st: State, lines: seq<string>, key: string, i: nat)
    requires i < |lines| && Stores(lines[i], key) && key != "tags" && key != ProtoKey
    ensures key in Run(st, lines).rec.fields && Run(st, lines).rec.fields[key] != ""
  {
    assert lines == lines[..i] + lines[i..];
    RunAppend(st, lines[..i], lines[i..]);
    var mid := Run(st, lines[..i]);
    StepKeyLine(mid, lines[i]);
    assert lines[i..][1..] == lines[i + 1..];
    RunKeepsNonEmpty(Step(mid, lines[i]), lines[i + 1..], key);
  }

  /** A later `tags:` line wipes the list: what was collected before it
      has no influence on the final tags. */
  lemma {:induction false} TagsLineWipes(st1: State, st2: State, line: string, rest: seq<string>)
    requires var t := Trim(line); !IsSkipped(t) && ':' in t && KeyOf(t) == "tags"
    ensures Run(st1, [line] + rest).rec.tags == Run(st2, [line] + rest).rec.tags
  {
    StepKeyLine(st1, line);
    StepKeyLine(st2, line);
    var a := Step(st1, line);
    var b := Step(st2, line);
    assert ([line] + rest)[1..] == rest;
    RunTagsIndependent(a, b, rest);
  }

  /** Two runs that start with the same tags and the same current key end
      with the same tags, whatever the fields were. */
  lemma {:induction false} RunTagsIndependent(a: State, b: State, lines: seq<string>)
    requires a.rec.tags == b.rec.tags && a.current == b.current
    ensures Run(a, lines).rec.tags == Run(b, lines).rec.tags
    decreases |lines|
  {
    if |lines| > 0 {
      var t := Trim(lines[0]);
      if !IsSkipped(t) && ':' in t {
        StepKeyLine(a, lines[0]);
        StepKeyLine(b, lines[0]);
      }
      RunTagsIndependent(Step(a, lines[0]), Step(b, lines[0]), lines[1..]);
    }
  }

  /** Inserting a blank or comment line anywhere changes nothing. */
  lemma {:induction false} RunIgnoresSkipped(st: State, before: seq<string>, line: string, after: seq<string>)
    requires IsSkipped(Trim(line))
    ensures Run(st, before + [line] + after) == Run(st, before + after)
    decreases |before|
  {
    if |before| == 0 {
      assert before + [line] + after == [line] + after;
      assert ([line] + after)[1..] == after;
      assert before + after == after;
    } else {
      assert (before + [line] + after)[1..] == before[1..] + [line] + after;
      assert (before + after)[1..] == before[1..] + after;
      RunIgnoresSkipped(Step(st, before[0]), before[1..], line, after);
    }
  }

  /** The first colon of `a + ":" + b` is the one after `a` when `a` has
      none. */
  lemma FirstColonAfter(a: string, b: string)
    requires ':' !in a
    ensures FirstIndex(a + ":" + b, ':') == |a|
  {
    var s := a + ":" + b;
    assert s[|a|] == ':';
    forall k | 0 <= k < |a|
      ensures s[k] != ':'
    {
      assert s[k] == a[k];
    }
  }

  /** Key and value of a line `key:tail` whose key holds no colon. */
  lemma KeyValueAfterColon(key: string, tail: string)
    requires ':' !in key
    ensures KeyOf(key + ":" + tail) == Trim(key)
    ensures ValueOf(key + ":" + tail) == Trim(tail[..FirstIndex(tail, ':')])
  {
    var line := key + ":" + tail;
    FirstColonAfter(key, tail);
    assert line[..|key|] == key;
    assert line[|key| + 1..] == tail;
  }

  /** A key line `key: first:rest` stores only `first`: the value ends at
      the second colon, so `created: 2024-01-01 10:30` stores
      `2024-01-01 10`. */
  lemma {:induction false} ValueStopsAtSecondColon(st: State, key: string, first: string, rest: string)
    requires ':' !in key && ':' !in first
    requires key != "" && key[0] != '#' && Trimmed(key) && key != "tags" && key != ProtoKey
    requires first != "" && Trimmed(first) && Trimmed(rest)
    ensures Step(st, key + ": " + first + ":" + rest).rec.fields == st.rec.fields[key := first]
    ensures Step(st, key + ": " + first + ":" + rest).current == Some(key)
  {
    var tail := " " + first + ":" + rest;
    var line := key + ":" + tail;
    assert key + ": " + first + ":" + rest == line;
    assert tail[|tail| - 1] == if |rest| > 0 then rest[|rest| - 1] else ':';
    KeyLineTrimmed(key, tail);
    KeyLineKey(key, tail);
    KeyLineFirstValue(key, first, rest);
    StepStores(st, line, key, first);
  }

  /** A trimmed key line with a non-empty value for an ordinary key stores
      that value and makes the key current. */
  lemma StepStores(st: State, line: string, key: string, value: string)
    requires Trim(line) == line && line != "" && line[0] != '#' && ':' in line
    requires KeyOf(line) == key && ValueOf(line) == value
    requires value != "" && key != "tags" && key != ProtoKey
    ensures Step(st, line).rec == Record(st.rec.fields[key := value], st.rec.tags)
    ensures Step(st, line).current == Some(key)
  {
    StepKeyLine(st, line);
  }

  lemma KeyLineTrimmed(key: string, tail: string)
    requires key != "" && Trimmed(key)
    requires |tail| == 0 || !IsSpace(tail[|tail| - 1])
    ensures Trim(key + ":" + tail) == key + ":" + tail
  {
    var line := key + ":" + tail;
    assert line[0] == key[0];
    if |tail| > 0 {
      assert line[|line| - 1] == tail[|tail| - 1];
    }
    TrimTrimmed(line);
  }

  lemma KeyLineKey(key: string, tail: string)
    requires ':' !in key && Trimmed(key)
    ensures KeyOf(key + ":" + tail) == key
  {
    KeyValueAfterColon(key, tail);
    TrimTrimmed(key);
  }

  lemma KeyLineFirstValue(key: string, first: string, rest: string)
    requires ':' !in key && ':' !in first && Trimmed(first)
    ensures ValueOf(key + ":" + (" " + first + ":" + rest)) == first
  {
    var a := " " + first;
    KeyValueAfterColon(key, a + ":" + rest);
    NoColonAfterSpace(first);
    FirstColonAfter(a, rest);
    assert (a + ":" + rest)[..|a|] == a;
    TrimSpaceBefore(first);
  }

  lemma NoColonAfterSpace(first: string)
    requires ':' !in first
    ensures ':' !in " " + first
  {
    assert forall k :: 1 <= k < |" " + first| ==> (" " + first)[k] == first[k - 1];
  }

  lemma TrimSpaceBefore(first: string)
    requires Trimmed(first)
    ensures Trim(" " + first) == first
  {
    assert " " + first == " " + first + "";
    TrimOf(" ", first, "");
  }

  /** A line `- a: b` holds a colon, so it is a key line named `- a`: while
      `tags` is current, it ends the list instead of adding to it. */
  lemma DashWithColonIsKeyLine(st: State)
    ensures Step(st, "- a: b").current == Some("- a")
    ensures Step(st, "- a: b").rec == Record(st.rec.fields["- a" := "b"], st.rec.tags)
  {
    DashLineKey();
    DashLineValue();
    StepStores(st, "- a: b", "- a", "b");
  }

  lemma DashLineKey()
    ensures Trim("- a: b") == "- a: b" && ':' in "- a: b" && KeyOf("- a: b") == "- a"
  {
    assert "- a: b" == "- a" + ":" + " b";
    KeyLineTrimmed("- a", " b");
    KeyLineKey("- a", " b");
  }

  lemma DashLineValue()
    ensures ':' in "- a: b" && ValueOf("- a: b") == "b"
  {
    assert "- a: b" == "- a" + ":" + " b";
    KeyValueAfterColon("- a", " b");
    assert FirstIndex(" b", ':') == 2;
    assert " b"[..2] == " " + "b" + "";
    TrimOf(" ", "b", "");
  }

}
