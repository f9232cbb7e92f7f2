/** `formatDate` of the post cards and the post page
    (src/components/BlogCard.tsx:18-22, src/pages/BlogDetail.tsx:18-22):
    the text before the first space, split at `-`, printed as
    year年month月day日 with no validation and no padding. */
module Dates {
  import opened Text

  /** What a template literal prints for a missing destructured element. */
  const Undefined: string := "undefined"

  /** `const [year, month, day] = parts`, each printed in a template: the
      three names read the list as if it were padded with `undefined`. */
  function Part(parts: seq<string>, i: nat): (r: string)
    requires i < 3
    ensures r == (parts + [Undefined, Undefined, Undefined])[i]
  {
    if i < |parts| then parts[i] else Undefined
  }

  /** The template over the `-`-separated fields. */
  function Render(parts: seq<string>): string {
    Part(parts, 0) + "年" + Part(parts, 1) + "月" + Part(parts, 2) + "日"
  }

  /** The first three `-`-separated fields of the text before the first
      space, padded with `undefined`, around 年, 月 and 日. */
  function FormatDate(s: string): (r: string)
    ensures var f := SplitOn(s[..FirstIndex(s, ' ')], '-') + [Undefined, Undefined, Undefined];
            r == f[0] + "年" + f[1] + "月" + f[2] + "日"
  {
    SplitOnHead(s, ' ');
    Render(SplitOn(SplitOn(s, ' ')[0], '-'))
  }

  /** A text without a space is the date part in full. */
  lemma FormatDateWord(date: string)
    requires ' ' !in date
    ensures FormatDate(date) == Render(SplitOn(date, '-'))
  {
    SplitOnNone(date, ' ');
  }

  /** `x-rest` splits into `x` and the pieces of `rest`. */
  lemma SplitField(x: string, rest: string)
    requires '-' !in x
    ensures SplitOn(x + "-" + rest, '-') == [x] + SplitOn(rest, '-')
  {
    SplitOnConcat(x, rest, '-');
    SplitOnNone(x, '-');
  }

  /** Only the text before the first space is ever looked at. */
  lemma FormatDateFirstWord(s: string)
    ensures FormatDate(s) == FormatDate(s[..FirstIndex(s, ' ')])
  {
    var w := s[..FirstIndex(s, ' ')];
    SplitOnHead(s, ' ');
    SplitOnNone(w, ' ');
  }

  /** Whatever follows the first space is ignored. */
  lemma FormatDateIgnoresTime(date: string, time: string)
    requires ' ' !in date
    ensures FormatDate(date + " " + time) == FormatDate(date)
  {
    SplitOnConcat(date, time, ' ');
    SplitOnNone(date, ' ');
  }

  /** Three fields are copied verbatim into the template. */
  lemma FormatDateOf(y: string, m: string, d: string)
    requires '-' !in y && '-' !in m && '-' !in d
    requires ' ' !in y && ' ' !in m && ' ' !in d
    ensures FormatDate(y + "-" + m + "-" + d) == y + "年" + m + "月" + d + "日"
  {
    assert y + "-" + m + "-" + d == y + "-" + (m + "-" + d);
    FormatDateWord(y + "-" + (m + "-" + d));
    SplitField(y, m + "-" + d);
    SplitField(m, d);
    SplitOnNone(d, '-');
  }

  /** Fields after the third `-` are dropped. */
  lemma FormatDateExtraFields(y: string, m: string, d: string, more: string)
    requires '-' !in y && '-' !in m && '-' !in d
    requires ' ' !in y && ' ' !in m && ' ' !in d && ' ' !in more
    ensures FormatDate(y + "-" + m + "-" + d + "-" + more) == y + "年" + m + "月" + d + "日"
  {
    assert y + "-" + m + "-" + d + "-" + more == y + "-" + (m + "-" + (d + "-" + more));
    FormatDateWord(y + "-" + (m + "-" + (d + "-" + more)));
    SplitField(y, m + "-" + (d + "-" + more));
    SplitField(m, d + "-" + more);
    SplitField(d, more);
  }

  /** With one field the month and day print as `undefined`. */
  lemma FormatDateYearOnly(y: string)
    requires '-' !in y && ' ' !in y
    ensures FormatDate(y) == y + "年" + Undefined + "月" + Undefined + "日"
  {
    FormatDateWord(y);
    SplitOnNone(y, '-');
  }

  /** With two fields the day prints as `undefined`. */
  lemma FormatDateNoDay(y: string, m: string)
    requires '-' !in y && '-' !in m && ' ' !in y && ' ' !in m
    ensures FormatDate(y + "-" + m) == y + "年" + m + "月" + Undefined + "日"
  {
    FormatDateWord(y + "-" + m);
    SplitField(y, m);
    SplitOnNone(m, '-');
  }

  /** The card's example, `2024-01-05 10:30:00`, written out by field. */
  lemma FormatDateExample()
    ensures FormatDate("2024" + "-" + "01" + "-" + "05" + " " + "10:30:00") == "2024" + "年" + "01" + "月" + "05" + "日"
  {
    var date := "2024" + "-" + "01" + "-" + "05";
    FormatDateOf("2024", "01", "05");
    FormatDateIgnoresTime(date, "10:30:00");
  }
}
