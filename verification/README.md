# Blog and gallery content pipeline, modelled in Dafny

This project models the string and sequence processing the site's blog and
gallery pages do before anything is rendered:

- **Frontmatter.** The three blog views each carry the same line-oriented
  frontmatter parser. Its only state besides the record is the key named
  most recently (`Frontmatter`).
- **Finding the header block.** The blog list and the recent-posts section
  use the anchored regular expression `^---[\r\n]+([\s\S]*?)[\r\n]+---`
  (`Anchored`). The post page instead splits the text at `^---\s*$`
  marker lines (`Markers`).
- **Catalog.** Pages sort posts newest first with a stable sort, keep five
  of them in the recent-posts section, list distinct tags and categories
  in first-occurrence order, and filter by tag, category and a
  case-insensitive search (`Catalog`, `BlogList`, `RecentBlogs`).
- **The post page** (`BlogDetail`):
  - it looks a post up by slug;
  - it rejects a post missing a required field;
  - it defaults the update date to the creation date.
- **Small helpers:**
  - slugs and post paths (`Slugs`);
  - `formatDate` (`Dates`);
  - the tag and category selector (`TagCloud`);
  - the gallery's category list, filter and wrap-around image index
    (`Gallery`);
  - the photo page's lookup and preview arrows (`PhotoDetail`);
  - `getProxiedImageUrl` and the images' retry-once `onError` handler
    (`Image`).

`getProxiedImageUrl` puts a source address into the `url` parameter of
`/api/proxy-image?url=…` with `encodeURIComponent`. The error handler
reads that parameter back with `new URL(img.src).searchParams.get('url')`.
For that round trip the project models:

- `encodeURIComponent`, which is UTF-8 by section 3 of RFC 3629, then
  percent-encoding by section 2.1 of RFC 3986 (`Utf8`, `Uri`);
- how the URL parser stores a query, using the special-query
  percent-encode set of section 4.4 of the WHATWG URL Standard;
- application/x-www-form-urlencoded parsing, by section 5.1 of the same
  standard, with the UTF-8 decoder that replaces each maximal invalid
  subpart with U+FFFD.

The model proves that an image failing through the proxy falls back to
exactly the address it was given (`Image.OnErrorRestores`).

Quirks of the source are modelled as they are. Each is stated and proved:

- A stored value is only the text between the first and the second colon:
  `created: 2024-01-01 10:30` stores `2024-01-01 10`.
- A later `tags:` line wipes the tag list.
- `- a: b` is a key line named `- a`.
- The text `---⏎---` has no frontmatter block for the list pages, because
  the opening run takes the only line break.
- The list pages require no header field. The post page requires three.
- A file name drops only the first `.md`, wherever it occurs.
- `formatDate` prints `undefined` for missing fields.

Files are `(path, text)` pairs in bundle order. Date parsing is a
parameter `dateKey: Option<string> -> int`, where `None` stands for a
missing `created` field.

## Model

| member | source | states |
|---|---|---|
| Frontmatter.StepSkipped | src/pages/BlogList.tsx:70-71 | a line that is empty once trimmed, or starts with `#`, changes neither the record nor the current key |
| Frontmatter.StepKeyLine | src/pages/BlogList.tsx:73-81 | a line holding a colon makes the trimmed text before the first colon the current key; `tags` resets the list; any other key stores the trimmed text between the first and second colon when it is non-empty, and leaves the record alone when it is empty |
| Frontmatter.StepItem | src/pages/BlogList.tsx:82-85 | a `- ` line without a colon appends its trimmed remainder to the tags only while `tags` is the current key, and otherwise changes nothing |
| Frontmatter.StepOther | src/pages/BlogList.tsx:69-86 | a line with neither a colon nor a leading `- ` is ignored |
| Frontmatter.KeyValue | src/pages/BlogList.tsx:74 | `split(':').map(trim)` gives the trimmed text before the first colon and the trimmed text between the first and second colon |
| Frontmatter.ItemText | src/pages/BlogList.tsx:83 | `replace('- ', '').trim()` on a `- ` line removes exactly the leading `- ` |
| Frontmatter.Step | src/pages/BlogList.tsx:69-86 | one line never removes a key, never stores `tags` as a string or anything under `__proto__`, and appends only non-empty, trimmed tags |
| Frontmatter.Run | src/pages/BlogList.tsx:69-86 | the whole run of lines keeps what every single line keeps |
| Frontmatter.ParseHeader | src/pages/BlogList.tsx:66-90 | the starting keys stay, `tags` and `__proto__` are never stored as strings, and from clean starting tags every collected tag is non-empty and trimmed |
| Frontmatter.RunKeepsField | src/pages/BlogList.tsx:79-81 | a key that no line stores a non-empty value under keeps its starting value, or stays absent |
| Frontmatter.LastStoreWins | src/pages/BlogList.tsx:79-81 | the last line that stores a value under an ordinary key decides that key's value |
| Frontmatter.StoredNonEmpty | src/pages/BlogList.tsx:79-81 | a key some line stores a value under ends up present and non-empty |
| Frontmatter.RunKeepsNonEmpty | src/pages/BlogList.tsx:79-81 | a non-empty value is only ever replaced by another non-empty one |
| Frontmatter.TagsLineWipes | src/pages/BlogList.tsx:77-78 | after a `tags:` line, what was collected before has no influence on the final tags |
| Frontmatter.RunTagsIndependent | src/pages/BlogList.tsx:69-86 | the final tags depend only on the starting tags and current key, not on the string fields |
| Frontmatter.RunIgnoresSkipped | src/pages/BlogList.tsx:71 | inserting a blank or comment line anywhere changes nothing |
| Frontmatter.RunAppend | src/pages/BlogList.tsx:69 | parsing two blocks of lines is parsing the first and continuing with the second |
| Frontmatter.ValueStopsAtSecondColon | src/pages/BlogList.tsx:74 | `key: first:rest` stores only `first` and makes `key` current |
| Frontmatter.DashWithColonIsKeyLine | src/pages/BlogList.tsx:73-85 | `- a: b` is a key line: it stores `b` under `- a` and ends a tag list |
| Text.Trim | src/pages/BlogList.tsx:70 | the result has no leading or trailing whitespace and is no longer than the input |
| Text.TrimOf | src/pages/BlogList.tsx:70 | whitespace around a trimmed text is removed and nothing else |
| Text.TrimIdempotent | src/pages/BlogList.tsx:70 | trimming twice is trimming once |
| Text.SplitOn | src/pages/BlogList.tsx:74 | `split(c)` gives at least one piece, two or more exactly when `c` occurs, no piece holds `c`, and joining with `c` gives the text back |
| Text.SplitOnJoin | src/pages/BlogList.tsx:74 | splitting a join of `c`-free pieces gives the pieces back |
| Text.SplitLines | src/pages/BlogList.tsx:69 | `split(/[\r\n]+/)` gives at least one piece and no piece holds CR or LF |
| Text.SplitLinesJoin | src/pages/BlogList.tsx:69 | lines without CR or LF, every one after the first non-empty, joined by one CR/LF run, come back (blank interior lines are dropped by the split) |
| Text.IndexOf | src/pages/BlogList.tsx:83 | the first occurrence of a pattern, and `None` exactly when there is none |
| Text.ReplaceFirst | src/pages/BlogList.tsx:83 | `replace` with a string pattern leaves the text alone when the pattern is absent, and otherwise keeps the text before the first occurrence, puts the replacement there, keeps the text after it, and changes the length by `|rep| - |pat|` |
| Text.ToLower | src/pages/BlogList.tsx:127-131 | same length, and every character is lower-cased on its own |
| Text.ReplaceLeading | src/pages/BlogList.tsx:83 | a one-step consequence of `ReplaceFirst` for the `- ` item lines: a pattern the text starts with is removed as a prefix |
| Text.ToLowerIdempotent | src/pages/BlogList.tsx:127-131 | lower-casing twice is lower-casing once |
| Anchored.NewlinesBetweenChars | src/pages/BlogList.tsx:57 | the range inside the line-break run is exactly a range of CR and LF characters |
| Anchored.Match | src/pages/BlogList.tsx:57 | the backtracking search returns only cuts along which the pattern matches |
| Anchored.MatchFirst | src/pages/BlogList.tsx:57 | the engine's cut is the valid cut with the longest opening run, then the shortest header, then the longest closing run; there is none exactly when no cut is valid |
| Anchored.MatchIs | src/pages/BlogList.tsx:57 | the valid cut that no valid cut is preferred to is the one returned |
| Anchored.BlockNone | src/pages/BlogList.tsx:57-61 | a text has no frontmatter block exactly when the pattern matches along no cut |
| Anchored.BlockOf | src/pages/BlogList.tsx:57-65 | for `---`, line breaks, a header with no line starting with `---`, line breaks, `---` and a rest, the block is that header and the trimmed rest |
| Anchored.AdjacentFencesNoMatch | src/pages/BlogList.tsx:57 | `---`, one line break and `---` has no block |
| Anchored.BlankLineEmptyHeader | src/pages/BlogList.tsx:57-63 | with two or more line breaks between the fences the header is empty |
| Anchored.PlainHeaderNoClose | src/pages/BlogList.tsx:57 | no closing fence starts inside a header with no line starting with `---` |
| Markers.MarkerEndLongest | src/pages/BlogDetail.tsx:134 | the match at a position is the longest `^---\s*$` there, and there is none exactly when no marker line starts there |
| Markers.BackToLineEndLast | src/pages/BlogDetail.tsx:134 | the greedy `\s*` backs off to the last line end in range, and fails only when there is none |
| Markers.MarksExact | src/pages/BlogDetail.tsx:134 | a position starts a recorded mark exactly when a marker line starts there |
| Markers.ScanFindsAll | src/pages/BlogDetail.tsx:134 | the split's scan finds every marker line from its start position on, and nothing else |
| Markers.PiecesRejoin | src/pages/BlogDetail.tsx:134 | putting the matched marker texts back between the pieces gives the text again |
| Markers.MarkTextsShape | src/pages/BlogDetail.tsx:134 | every matched marker is three dashes followed by whitespace |
| Markers.Split | src/pages/BlogDetail.tsx:134 | the split gives one more piece than there are marker lines |
| Markers.Sections | src/pages/BlogDetail.tsx:134-138 | `Invalid post format` exactly when the text has fewer than two marker lines |
| Markers.SectionsHeader | src/pages/BlogDetail.tsx:140 | the header is the text between the first two marker lines, whatever precedes the first |
| Markers.SectionsBody | src/pages/BlogDetail.tsx:141 | the body is the text after the second marker line with every later marker line read as `---`, then trimmed |
| Markers.SectionsBodyTwoMarks | src/pages/BlogDetail.tsx:141 | with exactly two marker lines the body is the trimmed text after the second |
| Markers.SectionsOf | src/pages/BlogDetail.tsx:134-141 | a post written as marker, header, marker, body gives that header (with its line breaks) and the trimmed body |
| Slugs.LastSegment | src/pages/BlogList.tsx:52 | `split('/').pop()` holds no slash |
| Slugs.LastSegmentAfter | src/pages/BlogList.tsx:52 | the last segment of `dir/seg` is `seg`, whatever `dir` is |
| Slugs.FileName | src/pages/BlogList.tsx:52 | a file name holds no slash |
| Slugs.FileNameOf | src/pages/BlogList.tsx:52 | the file name of `dir/name.md…` is `name` followed by what came after the first `.md` |
| Slugs.PostPath | src/pages/BlogList.tsx:97 | a post path is `/blogs/` followed by the file name |
| Slugs.PostPathSlug | src/pages/BlogList.tsx:97 | an unfolding of `PostPath` used by the post page: the slug read back from a post path is the name it was built from |
| BlogList.LoadPost | src/pages/BlogList.tsx:50-98 | a post has a non-empty file name, the `/blogs/` path of it, clean tags and no `tags` or `__proto__` string key |
| BlogList.LoadPostExcluded | src/pages/BlogList.tsx:52-61 | a file is left out exactly when its name is empty or the pattern matches its text nowhere |
| BlogList.LoadPostOf | src/pages/BlogList.tsx:57-98 | a file written as fences around a header gives the header parsed from nothing, the trimmed rest and the path |
| BlogList.Loaded | src/pages/BlogList.tsx:105-106 | a post is loaded exactly when some file gives it, and there are no more posts than files |
| BlogList.LoadedAppend | src/pages/BlogList.tsx:105-106 | posts come in file order: the posts of two file lists side by side are those of the first followed by those of the second |
| BlogList.LoadedOne | src/pages/BlogList.tsx:105-106 | a single file gives exactly its post, or nothing when it is left out; with `LoadedAppend` this fixes the order and multiplicity of every post |
| BlogList.Posts | src/pages/BlogList.tsx:105-107 | the catalog is a permutation of the loaded posts, non-increasing in the date key, posts with equal keys in file order |
| Seqs.SortDesc | src/pages/BlogList.tsx:107 | the stable sort: a permutation of its input, non-increasing in the key, and the elements of each key in their input order |
| Seqs.FilterMapAppend | src/pages/BlogList.tsx:105-106 | mapping then dropping the nulls works input by input, so results keep the order of their inputs |
| BlogList.Searched | src/pages/BlogList.tsx:128-129 | a searched field is its header value, or empty when the header never set it |
| BlogList.Filtered | src/pages/BlogList.tsx:124-134 | an order-preserving subsequence holding a post, as often as before, exactly when tag, category and search all hold |
| BlogList.FilteredNothingSelected | src/pages/BlogList.tsx:124-127 | with no selection and no query every post is shown |
| BlogList.SearchIgnoresCase | src/pages/BlogList.tsx:127-131 | the query's letter case does not matter |
| BlogList.SearchFindsContent | src/pages/BlogList.tsx:130 | a post whose lower-cased content holds the lower-cased query passes the search |
| Catalog.AllTags | src/pages/BlogList.tsx:121 | every tag of every post, each once, in first-occurrence order |
| Catalog.AllCategories | src/pages/BlogList.tsx:122 | every category value (`undefined` included), each once, in first-occurrence order |
| Catalog.NoSelectionPasses | src/pages/BlogList.tsx:125-126 | an unfolding of the selection test: `null` and `''` select nothing |
| RecentBlogs.LoadPost | src/components/RecentBlogs.tsx:33-75 | a post has a non-empty file name and the `/blogs/` path of it |
| RecentBlogs.LoadPostAsBlogList | src/components/RecentBlogs.tsx:35-71 | a file is loaded exactly when the blog list loads it, with the same header and path |
| RecentBlogs.Loaded | src/components/RecentBlogs.tsx:77-78 | a post is loaded exactly when some file gives it, and there are no more posts than files |
| RecentBlogs.LoadedAppend | src/components/RecentBlogs.tsx:77-78 | posts come in file order: the posts of two file lists side by side are those of the first followed by those of the second |
| RecentBlogs.LoadedOne | src/components/RecentBlogs.tsx:77-78 | a single file gives exactly its post, or nothing when it is left out |
| RecentBlogs.Sorted | src/components/RecentBlogs.tsx:77-79 | a permutation of the loaded posts, newest first, stable on ties |
| RecentBlogs.Kept | src/components/RecentBlogs.tsx:77-80 | the first `min(5, n)` posts of the sort |
| RecentBlogs.KeptNewest | src/components/RecentBlogs.tsx:77-80 | no dropped post has a larger date key than a kept one |
| RecentBlogs.SectionLists | src/components/RecentBlogs.tsx:93-94 | the section lists a tag or a category exactly when one of the at most five kept posts has it |
| RecentBlogs.Filtered | src/components/RecentBlogs.tsx:96-102 | at most five posts, an order-preserving subsequence, each meeting tag and category, and no post more often than it occurs; on at most five posts every post meeting the selection as often as it occurs |
| RecentBlogs.FilteredKept | src/components/RecentBlogs.tsx:96-102 | on the at most five kept posts a post is shown exactly when it meets the selection, and then as often as it occurs |
| RecentBlogs.FilteredNothingSelected | src/components/RecentBlogs.tsx:96-102 | with nothing selected the section shows the kept posts |
| BlogDetail.FindFile | src/pages/BlogDetail.tsx:123-131 | the text of the first file whose name is the slug, or `Post not found` exactly when none is |
| BlogDetail.PostPathResolves | src/pages/BlogDetail.tsx:123-127 | with unique names, the slug of a blog-list link finds its own file |
| BlogDetail.Metadata | src/pages/BlogDetail.tsx:143-170 | the four default keys are always present and the tags are clean |
| BlogDetail.FromHeader | src/pages/BlogDetail.tsx:172-183 | a post exactly when the parsed title, creation date and category are all non-empty; its title, creation date, category and tags are the parsed ones, its update date the parsed one or else the creation date, its content the given body; otherwise the missing-fields error |
| BlogDetail.Build | src/pages/BlogDetail.tsx:133-183 | the error is `Invalid post format` exactly when the split fails; otherwise the result is the post or error of the header and body sections |
| BlogDetail.BuildOf | src/pages/BlogDetail.tsx:133-183 | a file written as marker, header, marker, body gives the post or error of that header and the trimmed body |
| BlogDetail.RequiredEmpty | src/pages/BlogDetail.tsx:172-174 | a required key ends up empty exactly when no header line stores a non-empty value under it |
| BlogDetail.FromHeaderMissing | src/pages/BlogDetail.tsx:172-174 | the post is refused exactly when some required key is never stored |
| BlogDetail.UpdatedDefault | src/pages/BlogDetail.tsx:179 | the update date is the creation date when no line stores `updated`, and otherwise the last stored value |
| BlogDetail.Page | src/pages/BlogDetail.tsx:111-197 | an empty slug keeps the page loading; `Post not found` exactly when no file has the slug's name; otherwise the post that file builds to, or the error building it gives |
| Dates.Part | src/components/BlogCard.tsx:20 | destructuring reads the field list as if padded with `undefined` |
| Dates.FormatDate | src/components/BlogCard.tsx:18-22 | the first three `-` fields of the text before the first space, padded with `undefined`, around 年, 月 and 日 |
| Dates.FormatDateFirstWord | src/components/BlogCard.tsx:19 | only the text before the first space is looked at |
| Dates.FormatDateIgnoresTime | src/components/BlogCard.tsx:19 | what follows the first space never changes the result |
| Dates.FormatDateOf | src/components/BlogCard.tsx:20-21 | year, month and day are copied verbatim into `year年month月day日` |
| Dates.FormatDateExtraFields | src/components/BlogCard.tsx:20-21 | fields after the third are dropped |
| Dates.FormatDateYearOnly | src/components/BlogCard.tsx:20-21 | with one field, month and day print as `undefined` |
| Dates.FormatDateNoDay | src/components/BlogCard.tsx:20-21 | with two fields, the day prints as `undefined` |
| Dates.FormatDateExample | src/components/BlogCard.tsx:18-22 | a worked example, not a general property: `2024-01-05 10:30:00` formats to `2024年01月05日` |
| TagCloud.Toggle | src/components/TagCloud.tsx:26 | the new selection is nothing or the clicked item |
| TagCloud.ToggleFlips | src/components/TagCloud.tsx:26-29 | a click flips the clicked item's highlight and leaves every other item unhighlighted |
| TagCloud.ToggleTwice | src/components/TagCloud.tsx:26 | an unfolding of `Toggle` on two clicks: from nothing or from that item, two clicks on the same item restore the selection |
| TagCloud.ToggleTwiceFromOther | src/components/TagCloud.tsx:26 | an unfolding of `Toggle` on two clicks: from another item, two clicks on an item select nothing |
| TagCloud.AtMostOneHighlighted | src/components/TagCloud.tsx:29 | among distinct items at most one is highlighted |
| Gallery.Categories | src/pages/Gallery.tsx:23 | every photo category, each once, in first-occurrence order |
| Gallery.Shown | src/pages/Gallery.tsx:25-27 | all photos with no category selected, otherwise exactly the photos of that category, each as often as it occurs, in order |
| Gallery.Next | src/pages/Gallery.tsx:33-39 | on a valid index, next is `(i + 1) mod len` and stays in range |
| Gallery.Prev | src/pages/Gallery.tsx:41-47 | on a valid index, prev is `(i - 1) mod len` and stays in range |
| Gallery.NextPrevInverse | src/pages/Gallery.tsx:33-47 | next and prev undo each other on every valid index |
| Gallery.OnNext | src/pages/Gallery.tsx:33-39 | without an open photo the index is unchanged; with one it stays in range |
| Gallery.OnPrev | src/pages/Gallery.tsx:41-47 | without an open photo the index is unchanged; with one it stays in range |
| PhotoDetail.FindPhoto | src/pages/PhotoDetail.tsx:11-26 | the first photo with the route's id, and none exactly when no id matches |
| PhotoDetail.PrevIndex | src/pages/PhotoDetail.tsx:126-130 | the left arrow always gives an index: the first image when no preview is open, in range for an in-range one |
| PhotoDetail.NextIndex | src/pages/PhotoDetail.tsx:136-141 | the right arrow always gives an index: the first image when no preview is open, in range for an in-range one |
| PhotoDetail.ArrowsAsGallery | src/pages/PhotoDetail.tsx:126-141 | on an open preview the arrows step as the gallery's handlers |
| PhotoDetail.ArrowsInverse | src/pages/PhotoDetail.tsx:126-141 | on an open preview the two arrows undo each other |
| PhotoDetail.StepsForward | src/pages/PhotoDetail.tsx:136-141 | before the last image each press moves one image on |
| PhotoDetail.StepsAdd | src/pages/PhotoDetail.tsx:136-141 | `a` presses then `b` presses are `a + b` presses |
| PhotoDetail.FullCycle | src/pages/PhotoDetail.tsx:136-141 | `len` presses of the right arrow come back to the same image |
| PhotoDetail.Counter | src/pages/PhotoDetail.tsx:150-151 | the counter's position is between 1 and the image count, which it shows as total |
| Gallery.Overlay | src/pages/Gallery.tsx:150-168 | arrows and counter are drawn exactly for photos with more than one image; the counter shows position `i + 1` of the image count |
| PhotoDetail.OverlayCounter | src/pages/Gallery.tsx:166-167 | the gallery's counter is the photo page's counter |
| Image.ProxiedImageUrl | src/utils/image.ts:1-12 | empty exactly for empty input; `https://` sources unchanged; every other source becomes the proxy prefix and an encoded text, never starting with `https://` |
| Image.ProxiedQuery | src/utils/image.ts:10 | a proxied source is the proxy path and a one-parameter query whose `url`, read by `get`, is the original source |
| Image.QueryOf | src/pages/Gallery.tsx:99 | the query an address carries holds no fragment |
| Image.Resolve | src/pages/Gallery.tsx:99 | the resolved address starts with the page's origin, and a source without `?` is appended verbatim |
| Image.ResolveOf | src/pages/Gallery.tsx:99 | a source `path?query` resolves to the origin, the path, `?` and the query stored with the special-query set escaped |
| Image.ResolveProxied | src/pages/Gallery.tsx:99 | a proxied source resolves to the proxy path and the stored one-parameter query |
| Image.OnError | src/pages/Gallery.tsx:95-104 | the image ends marked; a marked image is unchanged; on the first error the source changes exactly when the old address has a non-empty `url` parameter, and then becomes it |
| Image.OnErrorOnce | src/pages/Gallery.tsx:97-98 | a second error changes nothing |
| Image.OnErrorWithoutParam | src/pages/Gallery.tsx:99-102 | without a non-empty `url` parameter only the mark changes |
| Image.OnErrorWithParam | src/pages/Gallery.tsx:99-101 | on the first error a non-empty `url` parameter is loaded, whatever else the query holds |
| Image.OnErrorStored | src/pages/PhotoDetail.tsx:72-81 | an address whose stored query carries the encoded `url` parameter falls back to that parameter's value |
| Image.OnErrorRestores | src/pages/Gallery.tsx:93-103 | a failing proxied image falls back to exactly the source it was given |
| Uri.PercentBytes | src/utils/image.ts:10 | three characters per byte, each `%` or an upper-case hex digit |
| Uri.EncodeComponent | src/utils/image.ts:10 | the result is unescaped characters and `%XX` triples, and no shorter than the input |
| Uri.EncodedChars | src/utils/image.ts:10 | encoded text holds no `&`, `=`, `#`, `+`, space or `?` |
| Uri.HexRoundTrip | src/utils/image.ts:10 | a hex digit the encoder writes reads back as its value |
| Uri.PercentDecode | src/pages/Gallery.tsx:99 | never longer than its input, and bytes without `%` are left as they are |
| Uri.PercentDecodePlain | src/pages/Gallery.tsx:99 | the bytes of ASCII text without `%` are left as they are |
| Uri.PercentDecodeBytes | src/pages/Gallery.tsx:99 | a run of `%XX` triples decodes to the bytes written |
| Uri.PercentDecodeComponent | src/pages/Gallery.tsx:99 | percent-decoding an encoded text gives the text's UTF-8 bytes |
| Uri.DecodeFieldEncoded | src/pages/Gallery.tsx:99 | a field that was encoded decodes to the original text |
| Uri.ParseQuery | src/pages/Gallery.tsx:99 | a pair is in the list exactly when some non-empty `&`-separated piece reads as it |
| Uri.ParseQueryAppend | src/pages/Gallery.tsx:99 | pairs come in query order: the pairs of `a&b` are those of `a` followed by those of `b` |
| Uri.ParseQueryPiece | src/pages/Gallery.tsx:99 | a query without `&` gives no pair when empty, and otherwise the one pair of its name and value |
| Uri.DecodeFieldPlain | src/pages/Gallery.tsx:99 | a name that is ASCII without `%`, `+`, `=` or `&` decodes to itself |
| Uri.Get | src/pages/Gallery.tsx:99 | `None` exactly when no pair has the name; otherwise the value of the first pair with that name |
| Uri.GetOne | src/pages/Gallery.tsx:99 | a one-piece query `name=raw` reads back the decoded `raw` |
| Uri.GetEncoded | src/pages/Gallery.tsx:99 | `name=` and an encoded value reads back the original value |
| Uri.QueryEscape | src/pages/Gallery.tsx:99 | the stored query holds no character of the special-query set |
| Uri.QueryEscapePlain | src/pages/Gallery.tsx:99 | text outside that set is stored unchanged |
| Uri.DecodeFieldStored | src/pages/Gallery.tsx:99 | the stored form of an encoded value still has no `&` or `+` and decodes to the value |
| Uri.GetStored | src/pages/Gallery.tsx:99 | the stored `name=` piece with an encoded value reads back the original value |
| Utf8.EncodeChar | src/utils/image.ts:10 | one to four bytes, one exactly for ASCII, continuation bytes after a lead of at least `0xC2` |
| Utf8.Encode | src/utils/image.ts:10 | between one and four bytes per character |
| Utf8.EncodeAscii | src/utils/image.ts:10 | an ASCII text is its own byte sequence |
| Utf8.DecodeStep | src/pages/Gallery.tsx:99 | one step consumes one to four bytes; an ASCII byte is its own character; a byte that cannot lead is consumed alone as U+FFFD; a longer step never runs past the lead's sequence |
| Utf8.Decode | src/pages/Gallery.tsx:99 | never more characters than bytes |
| Utf8.DecodeStepEncoded | src/pages/Gallery.tsx:99 | the decoder reads back exactly the character the encoder wrote, whatever follows |
| Utf8.DecodeEncode | src/pages/Gallery.tsx:99 | decoding undoes encoding |
| Utf8.DecodeLoneByte | src/pages/Gallery.tsx:99 | a lone non-ASCII byte decodes to U+FFFD |
| Utf8.DecodeBrokenLead | src/pages/Gallery.tsx:99 | a lead byte followed by an out-of-range byte gives U+FFFD for the lead alone |

## Left out

- React and rendering are not modelled: hooks, state setters, JSX, styles, animations, ReactMarkdown and `console.log`. The pages' outputs are the values those views would render.
- `import.meta.glob` bundling is not modelled. The markdown files are a given sequence of `(path, text)` pairs in bundle order.
- JavaScript `Date` parsing in the sort comparators is not modelled. The date key is a parameter, and NaN comparator behaviour is out of scope.
- Text.ToLower: lower-cases ASCII letters only. Unicode case mapping is not modelled.
- BlogList.Searched: a missing `title` or `summary` reads as empty. The page would throw a TypeError on a non-empty query; exceptions are not modelled.
- The `try`/`catch` around each file in BlogList and RecentBlogs drops a file that throws. Nothing in the modelled parser throws, so no such file exists in the model.
- Image.OnError: `new URL(img.src)` throwing on an unparsable address is not modelled.
- Image.Resolve: the browser resolves a root-relative source against the page's origin with the path written verbatim. Path escaping, dot segments and base URLs with a query are not modelled.
- Uri.EncodeComponent: lone surrogates, which make `encodeURIComponent` throw, cannot occur, because Dafny characters are Unicode scalar values. Characters outside ASCII are encoded in full UTF-8 rather than being excluded.
- The router's slug matching is not modelled. The route slug is a parameter, and `Slugs.PostPathSlug` states what the route reads back.
- Gallery.OnNext and Gallery.OnPrev: the gallery page never opens its preview, because `setSelectedPhoto` is only ever given `null`. So these handlers only ever see `None`, and the model states both cases.
- PhotoDetail.Counter: the page shows the counter even for a photo with one image. The model states only that the counter is in range.
- The particle animations, the clipboard and timer code of the post page, the network relay in api/proxy-image.ts, and the unused src/components/BlogDetail.tsx are not part of this model.
- Routing, layout, navigation and configuration files are not part of this model.
