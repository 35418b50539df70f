/** Addresses of the robot harvest pages: the joining of a "Next Page" link
    with the harvest address, the query parameters `parse_qs` finds in it, and
    the rule that adds the text-file and language filter to it. */
module Query {
  import opened Text

  /** The German harvester (`Datasets/Gutenberg/main.py`) and the English one
      (`Dataset/Language/downloadGutenberg.py`) differ only in the language code. */
  datatype Lang = German | English

  function LangCode(lang: Lang): string
  {
    match lang
    case German => "de"
    case English => "en"
  }

  const Host: string := "https://www.gutenberg.org"
  const BaseUrl: string := "https://www.gutenberg.org/robot/harvest"
  const FilterKey: string := "filetypes[]"

  /** The query text appended to a next-page address that lacks the filter. */
  function FilterQuery(lang: Lang): string
  {
    "filetypes[]=txt&langs[]=" + LangCode(lang)
  }

  /** `urljoin(base_url, href)` for the reference forms a catalog page uses. */
  function UrlJoin(href: string): (r: string)
    ensures StartsWith(href, "http://") || StartsWith(href, "https://") ==> r == href
    ensures href == "" ==> r == BaseUrl
    ensures |href| > 0 && (href[0] == '?' || href[0] == '#') ==> r == BaseUrl + href
    ensures |href| > 0 && href[0] == '/' && !StartsWith(href, "//") ==> r == Host + href
  {
    if StartsWith(href, "http://") || StartsWith(href, "https://") then href
    else if StartsWith(href, "//") then "https:" + href
    else if href == "" then BaseUrl
    else if href[0] == '/' then Host + href
    else if href[0] == '?' || href[0] == '#' then BaseUrl + href
    else Host + "/robot/" + href
  }

  // ---------------------------------------------------------------------------
  // The query of an address

  /** The address without its fragment (`urlsplit` cuts at the first `#`). */
  function Defragment(url: string): (r: string)
    ensures '#' !in r
    ensures '#' !in url ==> r == url
    ensures StartsWith(url, r)
  {
    match IndexOf(url, '#')
    case None => url
    case Some(h) => url[..h]
  }

  /** `urlparse(url).query`: what follows the first `?` of the defragmented address. */
  function QueryOf(url: string): (r: string)
    ensures '?' !in Defragment(url) ==> r == ""
  {
    var v := Defragment(url);
    match IndexOf(v, '?')
    case None => ""
    case Some(p) => v[p + 1..]
  }

  /** `nv[0].replace('+', ' ')` in `parse_qsl`. */
  function PlusToSpace(s: string): (r: string)
    ensures |r| == |s|
    ensures forall i :: 0 <= i < |s| ==> r[i] == (if s[i] == '+' then ' ' else s[i])
  {
    seq(|s|, i requires 0 <= i < |s| => if s[i] == '+' then ' ' else s[i])
  }

  /** A name without `+` is its own decoding. */
  lemma PlusFree(s: string)
    requires '+' !in s
    ensures PlusToSpace(s) == s
  {
  }

  /** A `name=value` field of `parse_qs` contributes `key`: it has an `=`, the
      name before the first one is `key`, and the value is not blank (blank
      values are dropped). */
  predicate FieldHasKey(field: string, key: string)
  {
    match IndexOf(field, '=')
    case None => false
    case Some(e) => PlusToSpace(field[..e]) == key && e + 1 < |field|
  }

  /** `key in parse_qs(urlparse(url).query)`: some `&`-separated field has it. */
  predicate HasQueryKey(url: string, key: string)
  {
    exists f :: f in Split(QueryOf(url), '&') && FieldHasKey(f, key)
  }

  /** An address without `?` has an empty query and so no query keys. */
  lemma NoQueryNoKey(url: string, key: string)
    requires '?' !in url && '#' !in url
    ensures !HasQueryKey(url, key)
  {
    assert QueryOf(url) == "";
    assert Split("", '&') == [""];
    assert IndexOf("", '=') == None;
  }

  /** Two fields joined by `&` split back into the two. */
  lemma TwoFields(a: string, b: string)
    requires '&' !in a && '&' !in b
    ensures Split(a + "&" + b, '&') == [a, b]
  {
    assert a + "&" + b == a + ['&'] + b;
    SplitConcat(a, b, '&');
    SplitNoSep(a, '&');
    SplitNoSep(b, '&');
  }

  /** The fields of the appended filter are its two parameters. */
  lemma FilterQueryFields(lang: Lang)
    ensures Split(FilterQuery(lang), '&') == ["filetypes[]=txt", "langs[]=" + LangCode(lang)]
  {
    var f1 := "filetypes[]=txt";
    var f2 := "langs[]=" + LangCode(lang);
    assert FilterQuery(lang) == f1 + "&" + f2;
    TwoFields(f1, f2);
  }

  /** The appended filter holds neither a `?` nor a `#`. */
  lemma FilterQueryChars(lang: Lang)
    ensures '?' !in FilterQuery(lang) && '#' !in FilterQuery(lang)
  {
    var fq := FilterQuery(lang);
    assert forall i :: 0 <= i < |fq| ==> fq[i] != '?' && fq[i] != '#';
  }

  /** The first appended parameter carries the filter key. */
  lemma FilterFieldHasKey()
    ensures FieldHasKey("filetypes[]=txt", FilterKey)
  {
    FilterFieldSplits();
    FilterKeyDecodes();
  }

  lemma FilterFieldSplits()
    ensures IndexOf("filetypes[]=txt", '=') == Some(11)
    ensures "filetypes[]=txt"[..11] == FilterKey
  {
    IndexOfUnique("filetypes[]=txt", '=', 11);
  }

  lemma FilterKeyDecodes()
    ensures PlusToSpace(FilterKey) == FilterKey
  {
    PlusFree(FilterKey);
  }

  /** Whatever precedes it, a query ending in `&` plus the filter has the key. */
  lemma FilterInQuery(q: string, lang: Lang)
    ensures exists f :: f in Split(q + "&" + FilterQuery(lang), '&') && FieldHasKey(f, FilterKey)
  {
    SplitConcat(q, FilterQuery(lang), '&');
    FilterQueryFields(lang);
    FilterFieldHasKey();
    assert q + "&" + FilterQuery(lang) == q + ['&'] + FilterQuery(lang);
    var fs := Split(q + "&" + FilterQuery(lang), '&');
    assert fs[|Split(q, '&')|] == "filetypes[]=txt";
  }

  // ---------------------------------------------------------------------------
  // The next-page address

  /** The rule as the harvesters write it: keep an address whose query has the
      filter key, otherwise append `&filetypes[]=txt&langs[]=<code>`. */
  function NextUrlAsWritten(lang: Lang, url: string): (r: string)
    ensures HasQueryKey(url, FilterKey) ==> r == url
    ensures !HasQueryKey(url, FilterKey) ==> StartsWith(r, url) && EndsWith(r, FilterQuery(lang))
  {
    if HasQueryKey(url, FilterKey) then url else url + "&" + FilterQuery(lang)
  }

  /** The rule as intended: an address without the filter gets it as query
      parameters, joined with `?` when it has no query yet (and without the
      fragment, which is never sent). */
  function NextUrl(lang: Lang, url: string): (r: string)
    ensures HasQueryKey(url, FilterKey) ==> r == url
    ensures HasQueryKey(r, FilterKey)
  {
    if HasQueryKey(url, FilterKey) then url
    else
      var v := Defragment(url);
      var r := v + (if '?' in v then "&" else "?") + FilterQuery(lang);
      NextUrlHasKey(lang, v);
      r
  }

  lemma NextUrlHasKey(lang: Lang, v: string)
    requires '#' !in v
    ensures HasQueryKey(v + (if '?' in v then "&" else "?") + FilterQuery(lang), FilterKey)
  {
    if '?' in v {
      ExtendQuery(lang, v);
    } else {
      StartQuery(lang, v);
    }
  }

  /** Appending `&` and the filter to an address with a query adds the key. */
  lemma ExtendQuery(lang: Lang, v: string)
    requires '#' !in v && '?' in v
    ensures HasQueryKey(v + "&" + FilterQuery(lang), FilterKey)
  {
    var fq := FilterQuery(lang);
    var p := IndexOf(v, '?').value;
    FilterQueryChars(lang);
    ExtendedQueryIs(v, "&" + fq, p);
    assert v + "&" + fq == v + ("&" + fq);
    assert v[p + 1..] + ("&" + fq) == v[p + 1..] + "&" + fq;
    FilterInQuery(v[p + 1..], lang);
  }

  /** Text appended after an address's query, holding no `#`, extends the query. */
  lemma ExtendedQueryIs(v: string, tail: string, p: nat)
    requires '#' !in v && '#' !in tail && IndexOf(v, '?') == Some(p)
    ensures QueryOf(v + tail) == v[p + 1..] + tail
  {
    IndexOfLeft(v, tail, '?');
    QueryAt(v + tail, p);
    assert (v + tail)[p + 1..] == v[p + 1..] + tail;
  }

  /** The query of an address without fragment starts after its first `?`. */
  lemma QueryAt(w: string, p: nat)
    requires '#' !in w && IndexOf(w, '?') == Some(p)
    ensures QueryOf(w) == w[p + 1..]
  {
    assert Defragment(w) == w;
  }

  /** Appending `?` and the filter to an address without a query makes the
      filter its query. */
  lemma StartQuery(lang: Lang, v: string)
    requires '#' !in v && '?' !in v
    ensures HasQueryKey(v + "?" + FilterQuery(lang), FilterKey)
  {
    var fq := FilterQuery(lang);
    FilterQueryChars(lang);
    var w := v + "?" + fq;
    assert w == v + ("?" + fq);
    assert IndexOf("?" + fq, '?') == Some(0);
    IndexOfRightAt(v, "?" + fq, '?', 0);
    assert Defragment(w) == w;
    assert w[|v| + 1..] == fq;
    assert QueryOf(w) == fq;
    FilterQueryFields(lang);
    FilterFieldHasKey();
    assert "filetypes[]=txt" in Split(QueryOf(w), '&');
  }

  /** On an address that already has a query (and no fragment) the rule as
      written and the intended one agree. */
  lemma NextUrlAgrees(lang: Lang, url: string)
    requires '?' in url && '#' !in url
    ensures NextUrlAsWritten(lang, url) == NextUrl(lang, url)
  {
  }

  /** The rule as written leaves an address without `?` unfiltered: the text it
      appends lands in the path, not in a query.  The intended rule starts a
      query there instead. */
  lemma NextUrlAsWrittenMissesFilter(lang: Lang, url: string)
    requires '?' !in url && '#' !in url
    ensures NextUrlAsWritten(lang, url) == url + "&" + FilterQuery(lang)
    ensures !HasQueryKey(NextUrlAsWritten(lang, url), FilterKey)
    ensures NextUrl(lang, url) == url + "?" + FilterQuery(lang)
  {
    NoQueryNoKey(url, FilterKey);
    var fq := FilterQuery(lang);
    FilterQueryChars(lang);
    NoQueryNoKey(url + "&" + fq, FilterKey);
  }

  /** A concrete case: a "Next Page" link pointing back at the bare harvest
      address. */
  lemma NextUrlAsWrittenExample()
    ensures NextUrlAsWritten(German, BaseUrl) == BaseUrl + "&" + FilterQuery(German)
    ensures !HasQueryKey(NextUrlAsWritten(German, BaseUrl), FilterKey)
    ensures NextUrl(German, BaseUrl) == BaseUrl + "?" + FilterQuery(German)
  {
    BaseUrlPlain();
    NextUrlAsWrittenMissesFilter(German, BaseUrl);
  }

  lemma BaseUrlPlain()
    ensures '?' !in BaseUrl && '#' !in BaseUrl
  {
    assert forall i :: 0 <= i < |BaseUrl| ==> BaseUrl[i] != '?' && BaseUrl[i] != '#';
  }
}
