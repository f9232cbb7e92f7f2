/** Image sources (src/utils/image.ts:1-12) and the retry-once error
    handler of the gallery and photo pages (src/pages/Gallery.tsx:95-104,
    src/pages/PhotoDetail.tsx:72-81): a source that is not already `https://`
    is sent through the proxy endpoint with the original address as its
    `url` parameter, and a failing image falls back, once, to that
    parameter. */
module Image {
  import opened Wrappers
  import opened Text
  import Uri

  /** The one prefix left unproxied; the check is case-sensitive. */
  const Https: string := "https://"

  const ProxyPath: string := "/api/proxy-image"
  const UrlParam: string := "url"

  /** What a proxied source starts with: `/api/proxy-image?url=`. */
  const ProxyPrefix: string := ProxyPath + "?" + UrlParam + "="

  /** A source that goes through the proxy. */
  predicate Proxied(u: string) {
    u != "" && !(Https <= u)
  }

  /** `getProxiedImageUrl`. */
  function ProxiedImageUrl(u: string): (r: string)
    ensures u == "" <==> r == ""
    ensures Https <= u ==> r == u
    ensures Proxied(u) ==> ProxyPrefix <= r && Uri.Encoded(r[|ProxyPrefix|..]) && !(Https <= r)
  {
    if u == "" then ""
    else if Https <= u then u
    else
      var r := ProxyPrefix + Uri.EncodeComponent(u);
      assert r[|ProxyPrefix|..] == Uri.EncodeComponent(u);
      assert r[0] == '/' && Https[0] == 'h';
      r
  }

  /** A proxied source is the proxy path and a one-parameter query whose
      `url`, read by `get`, is the original source. */
  lemma ProxiedQuery(u: string)
    requires Proxied(u)
    ensures ProxiedImageUrl(u) == ProxyPath + "?" + (UrlParam + "=" + Uri.EncodeComponent(u))
    ensures Uri.Get(UrlParam + "=" + Uri.EncodeComponent(u), UrlParam) == Some(u)
  {
    var e := Uri.EncodeComponent(u);
    assert ProxiedImageUrl(u) == ProxyPrefix + e;
    Regroup(ProxyPath, UrlParam, e);
    UrlParamPlain();
    Uri.GetEncoded(UrlParam, u);
  }

  lemma Regroup(p: string, q: string, e: string)
    ensures p + "?" + q + "=" + e == p + "?" + (q + "=" + e)
  {
  }

  lemma UrlParamPlain()
    ensures Uri.PlainName(UrlParam)
    ensures forall i :: 0 <= i < |UrlParam| ==> !Uri.InSpecialQuerySet(UrlParam[i])
  {
  }

  /** An image element: its source attribute, and whether `data-retried`
      is set. */
  datatype Img = Img(src: string, retried: bool)

  /** The query of an absolute address: the text after its first `?` and
      before its fragment; empty when there is none. */
  function QueryOf(src: string): (r: string)
    ensures '#' !in r
  {
    var pre := src[..FirstIndex(src, '#')];
    var q := FirstIndex(pre, '?');
    if q < |pre| then pre[q + 1..] else ""
  }

  /** The `onError` handler: on the first error mark the image and, when
      its address carries a non-empty `url` parameter, load that instead;
      once marked, errors change nothing. */
  function OnError(img: Img): (r: Img)
    ensures r.retried
    ensures img.retried ==> r == img
    ensures r.src != img.src ==> !img.retried && r.src != "" && Uri.Get(QueryOf(img.src), UrlParam) == Some(r.src)
    ensures (!img.retried && Uri.Get(QueryOf(img.src), UrlParam).Some? && Uri.Get(QueryOf(img.src), UrlParam).value != "")
              ==> r.src == Uri.Get(QueryOf(img.src), UrlParam).value
  {
    if img.retried then img
    else
      match Uri.Get(QueryOf(img.src), UrlParam)
      case Some(u) => if u != "" then Img(u, true) else Img(img.src, true)
      case None => Img(img.src, true)
  }

  /** The fallback happens at most once: a second error changes nothing. */
  lemma OnErrorOnce(img: Img)
    ensures OnError(OnError(img)) == OnError(img)
  {
  }

  /** Without a `url` parameter, or with an empty one, only the mark
      changes. */
  lemma OnErrorWithoutParam(img: Img)
    requires Uri.Get(QueryOf(img.src), UrlParam).None? || Uri.Get(QueryOf(img.src), UrlParam) == Some("")
    ensures OnError(img) == Img(img.src, true)
  {
  }

  /** On the first error a non-empty `url` parameter is loaded, whatever
      else the query holds. */
  lemma OnErrorWithParam(img: Img, u: string)
    requires !img.retried && Uri.Get(QueryOf(img.src), UrlParam) == Some(u) && u != ""
    ensures OnError(img) == Img(u, true)
  {
  }

  /** The address `img.src` reads back for a root-relative source on a
      page at `origin`: the text after the first `?` is stored with the
      special-query set escaped. */
  function Resolve(origin: string, rel: string): (r: string)
    ensures origin <= r
    ensures '?' !in rel ==> r == origin + rel
  {
    var i := FirstIndex(rel, '?');
    if i < |rel| then origin + rel[..i] + "?" + Uri.QueryEscape(rel[i + 1..]) else origin + rel
  }

  /** A failing proxied image falls back to exactly the source it was
      given. */
  lemma OnErrorRestores(origin: string, u: string)
    requires '?' !in origin && '#' !in origin
    requires Proxied(u)
    ensures OnError(Img(Resolve(origin, ProxiedImageUrl(u)), false)) == Img(u, true)
  {
    ResolveProxied(origin, u);
    ProxyPathPlain();
    OnErrorStored(origin + ProxyPath, u);
  }

  /** The address of a proxied source: the proxy path on the page's
      origin, then the stored one-parameter query. */
  lemma ResolveProxied(origin: string, u: string)
    requires Proxied(u)
    ensures Resolve(origin, ProxiedImageUrl(u))
            == (origin + ProxyPath) + "?" + Uri.QueryEscape(UrlParam + "=" + Uri.EncodeComponent(u))
  {
    ProxiedQuery(u);
    ProxyPathPlain();
    ResolveOf(origin, ProxyPath, UrlParam + "=" + Uri.EncodeComponent(u));
  }

  lemma ProxyPathPlain()
    ensures '?' !in ProxyPath && '#' !in ProxyPath
  {
  }

  /** A source `path?query` reads back with its query stored. */
  lemma ResolveOf(origin: string, path: string, query: string)
    requires '?' !in path
    ensures Resolve(origin, path + "?" + query) == (origin + path) + "?" + Uri.QueryEscape(query)
  {
    SplitAtFirst(path, '?', query);
  }

  /** Splitting `a c b` at the first `c`, when `a` has none. */
  lemma SplitAtFirst(a: string, c: char, b: string)
    requires c !in a
    ensures FirstIndex(a + [c] + b, c) == |a|
    ensures (a + [c] + b)[..|a|] == a && (a + [c] + b)[|a| + 1..] == b
  {
    var s := a + [c] + b;
    assert s[|a|] == c;
    assert forall k :: 0 <= k < |a| ==> s[k] == a[k];
  }

  /** The handler on an address whose stored query carries the encoded
      `url` parameter loads that parameter's value. */
  lemma OnErrorStored(base: string, u: string)
    requires '?' !in base && '#' !in base && u != ""
    ensures OnError(Img(base + "?" + Uri.QueryEscape(UrlParam + "=" + Uri.EncodeComponent(u)), false)) == Img(u, true)
  {
    QueryOfSplit(base, Uri.QueryEscape(UrlParam + "=" + Uri.EncodeComponent(u)));
    UrlParamPlain();
    Uri.GetStored(UrlParam, u);
  }

  /** The query of `base?q` for a base without `?` or `#` and a query
      without `#`. */
  lemma QueryOfSplit(base: string, q: string)
    requires '?' !in base && '#' !in base && '#' !in q
    ensures QueryOf(base + "?" + q) == q
  {
    var src := base + "?" + q;
    assert '#' !in src;
    assert src[..FirstIndex(src, '#')] == src;
    SplitAtFirst(base, '?', q);
  }
}
