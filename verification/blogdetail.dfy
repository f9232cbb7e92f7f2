/** The post page (src/pages/BlogDetail.tsx:111-197): find the file whose
    name is the route's slug, split it at `---` marker lines, parse the
    header from a record of empty defaults, require title, creation date
    and category, and default the update date to the creation date. */
module BlogDetail {
  import opened Wrappers
  import opened Text
  import opened Seqs
  import opened Frontmatter
  import opened Slugs
  import Markers

  /** The post as the page shows it. */
  datatype Post = Post(title: string, created: string, updated: string, category: string,
                       tags: seq<string>, content: string)

  /** What the page shows: the loading indicator, an error message, or
      the post. */
  datatype View = Loading | Failed(message: string) | Shown(post: Post)

  const NotFound: string := "Post not found"
  const MissingFields: string := "Missing required frontmatter fields"

  /** The keys the page starts from, all empty, with no tags. */
  const Defaults: Record := Record(map["title" := "", "created" := "", "updated" := "", "category" := ""], [])

  /** The three keys a post must set. */
  predicate Required(key: string) {
    key == "title" || key == "created" || key == "category"
  }

  /** `Object.keys(files).find(path => fileName(path) === slug)`, then that
      file's text; `Post not found` when no name matches. */
  function FindFile(files: seq<(string, string)>, slug: string): (r: Result<string, string>)
    ensures r.Failure? <==> forall i :: 0 <= i < |files| ==> FileName(files[i].0) != slug
    ensures r.Failure? ==> r.error == NotFound
    ensures r.Success? ==> exists i :: 0 <= i < |files| && FileName(files[i].0) == slug && files[i].1 == r.value
                                       && forall j :: 0 <= j < i ==> FileName(files[j].0) != slug
  {
    match FindIndex(files, (f: (string, string)) => FileName(f.0) == slug)
    case None => Failure(NotFound)
    case Some(i) => Success(files[i].1)
  }

  /** The link the blog list builds for a file leads back to that file,
      provided no other file has the same name. */
  lemma PostPathResolves(files: seq<(string, string)>, i: nat)
    requires i < |files| && FileName(files[i].0) != ""
    requires forall j :: 0 <= j < |files| && j != i ==> FileName(files[j].0) != FileName(files[i].0)
    ensures FindFile(files, PostPath(FileName(files[i].0))[|BlogsPrefix|..]) == Success(files[i].1)
  {
    PostPathSlug(FileName(files[i].0));
  }

  /** The parsed header: the four default keys are always present. */
  function Metadata(header: string): (r: Record)
    ensures "title" in r.fields && "created" in r.fields && "updated" in r.fields && "category" in r.fields
    ensures AllClean(r.tags)
  {
    ParseHeader(header, Defaults)
  }

  /** The post of a header and body, or the missing-fields error. */
  function FromHeader(header: string, body: string): (r: Result<Post, string>)
    ensures r.Failure? ==> r.error == MissingFields
    ensures r.Success? <==> var f := Metadata(header).fields;
                            f["title"] != "" && f["created"] != "" && f["category"] != ""
    ensures r.Success? ==> var f := Metadata(header).fields;
                           && r.value.title == f["title"]
                           && r.value.created == f["created"]
                           && r.value.category == f["category"]
                           && r.value.tags == Metadata(header).tags
                           && r.value.updated == (if f["updated"] != "" then f["updated"] else f["created"])
                           && r.value.updated != ""
                           && r.value.content == body
  {
    var meta := Metadata(header);
    var f := meta.fields;
    if f["title"] == "" || f["created"] == "" || f["category"] == "" then Failure(MissingFields)
    else
      var updated := if f["updated"] == "" then f["created"] else f["updated"];
      Success(Post(f["title"], f["created"], updated, f["category"], meta.tags, body))
  }

  /** A post from a file's text, or the error the page reports. */
  function Build(text: string): (r: Result<Post, string>)
    ensures r.Failure? ==> r.error == Markers.BadFormat || r.error == MissingFields
    ensures r.Failure? && r.error == Markers.BadFormat <==> Markers.Sections(text).Failure?
    ensures Markers.Sections(text).Success? ==>
              r == FromHeader(Markers.Sections(text).value.0, Markers.Sections(text).value.1)
  {
    match Markers.Sections(text)
    case Failure(e) => Failure(e)
    case Success(sections) => FromHeader(sections.0, sections.1)
  }

  /** A post written as marker line, header lines, marker line, body is
      the header parsed with its line breaks and the trimmed body, or the
      missing-fields error. */
  lemma BuildOf(nl: char, h: string, nl2: char, tail: string)
    requires IsLineTerminator(nl) && IsLineTerminator(nl2)
    requires |h| > 0 && !IsSpace(h[0]) && !Dashes(h, 0) && Markers.NoDashLine(h)
    requires (|tail| == 0 || IsLineTerminator(tail[0])) && Markers.NoDashLine(tail)
    ensures Build("---" + [nl] + h + [nl2] + "---" + tail) == FromHeader([nl] + h + [nl2], Trim(tail))
  {
    Markers.SectionsOf(nl, h, nl2, tail);
  }

  /** A key is never stored by any of the lines. */
  predicate Unset(lines: seq<string>, key: string) {
    forall i :: 0 <= i < |lines| ==> !Stores(lines[i], key)
  }

  /** A required key ends up empty exactly when no header line stores it,
      that is when it is absent or only ever given an empty value. */
  lemma RequiredEmpty(header: string, key: string)
    requires Required(key)
    ensures Unset(SplitLines(header), key) <==> Metadata(header).fields[key] == ""
  {
    var lines := SplitLines(header);
    var st := State(Defaults, None);
    if Unset(lines, key) {
      RunKeepsField(st, lines, key);
    } else {
      var i :| 0 <= i < |lines| && Stores(lines[i], key);
      StoredNonEmpty(st, lines, key, i);
    }
  }

  /** The post is refused exactly when a required key is never stored. */
  lemma FromHeaderMissing(header: string, body: string)
    ensures FromHeader(header, body).Failure? <==> exists key :: Required(key) && Unset(SplitLines(header), key)
  {
    var f := Metadata(header).fields;
    var lines := SplitLines(header);
    FromHeaderRefused(header, body);
    forall key | Required(key) ensures Unset(lines, key) <==> f[key] == "" {
      RequiredEmpty(header, key);
    }
    if f["title"] == "" {
      assert Required("title") && Unset(lines, "title");
    } else if f["created"] == "" {
      assert Required("created") && Unset(lines, "created");
    } else if f["category"] == "" {
      assert Required("category") && Unset(lines, "category");
    }
  }

  /** The post is refused exactly when a required field is empty. */
  lemma FromHeaderRefused(header: string, body: string)
    ensures var f := Metadata(header).fields;
            FromHeader(header, body).Failure? <==> f["title"] == "" || f["created"] == "" || f["category"] == ""
  {
  }

  /** A header that never stores `updated` gives the creation date as
      update date; otherwise the last stored `updated` value counts. */
  lemma UpdatedDefault(header: string, body: string)
    requires FromHeader(header, body).Success?
    ensures var p := FromHeader(header, body).value;
            var lines := SplitLines(header);
            (Unset(lines, "updated") ==> p.updated == p.created)
            && (forall i :: 0 <= i < |lines| && Stores(lines[i], "updated") && Unset(lines[i + 1..], "updated")
                  ==> p.updated == ValueOf(Trim(lines[i])))
  {
    var lines := SplitLines(header);
    var st := State(Defaults, None);
    if Unset(lines, "updated") {
      RunKeepsField(st, lines, "updated");
    }
    forall i | 0 <= i < |lines| && Stores(lines[i], "updated") && Unset(lines[i + 1..], "updated")
      ensures Run(st, lines).rec.fields["updated"] == ValueOf(Trim(lines[i]))
    {
      assert forall j :: i < j < |lines| ==> lines[j] == lines[i + 1..][j - i - 1];
      LastStoreWins(st, lines, "updated", i);
    }
  }

  /** The page for a route slug. An empty slug never starts loading. */
  function Page(files: seq<(string, string)>, slug: string): (r: View)
    ensures slug == "" <==> r == Loading
    ensures r.Failed? ==> r.message in {NotFound, Markers.BadFormat, MissingFields}
    ensures slug != "" ==> (r.Failed? && r.message == NotFound <==> FindFile(files, slug).Failure?)
    ensures r.Shown? <==> slug != "" && FindFile(files, slug).Success? && Build(FindFile(files, slug).value).Success?
    ensures r.Shown? ==> r.post == Build(FindFile(files, slug).value).value
    ensures slug != "" && FindFile(files, slug).Success? && Build(FindFile(files, slug).value).Failure? ==>
              r == Failed(Build(FindFile(files, slug).value).error)
  {
    if slug == "" then Loading
    else
      match FindFile(files, slug)
      case Failure(e) => Failed(e)
      case Success(text) =>
        match Build(text)
        case Failure(e) => Failed(e)
        case Success(post) => Shown(post)
  }
}
