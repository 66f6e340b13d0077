/** The comment scraper (`scraper/comments_scraper/nhk_comment_scraper.py`):
    reading age and gender out of a comment's meta line, turning a comment
    element into a six-field record, reading the total comment count off
    the page headings, building the list of page URLs, collecting the
    comments of every page and counting them by type.

    HTML parsing and HTTP are inputs here: a comment element is the texts
    its sub-elements yield (`None` for a missing sub-element), an index page
    is its `h2` texts and the links of its `nav` elements, and a fetch that
    fails is `None`. */
module CommentScraper {
  import opened Values
  import opened Text
  import opened Patterns

  const Male := "男性"
  const Female := "女性"

  // ---------------------------------------------------------------------
  // parse_age_gender
  // ---------------------------------------------------------------------

  /** Age bucket and gender of a meta text. The age is the leftmost age
      bucket in the text; the gender is 男性 whenever that word appears,
      else 女性 when that word appears; an empty or missing text gives
      neither. */
  function ParseAgeGender(text: Option<string>): (r: (Option<string>, Option<string>))
    ensures !Truthy(text) ==> r == (None, None)
    ensures r.0.Some? ==>
      && Truthy(text) && IsAgeBucket(r.0.value)
      && exists p :: Occurs(r.0.value, text.value, p) &&
           forall k, t :: k < p && IsAgeBucket(t) ==> !Occurs(t, text.value, k)
    ensures Truthy(text) && r.0.None? ==> forall k, t :: IsAgeBucket(t) ==> !Occurs(t, text.value, k)
    ensures Truthy(text) ==> (r.1 == Some(Male) <==> Contains(text.value, Male))
    ensures Truthy(text) ==> (r.1 == Some(Female) <==> !Contains(text.value, Male) && Contains(text.value, Female))
    ensures r.1.None? <==> !Truthy(text) || (!Contains(text.value, Male) && !Contains(text.value, Female))
  {
    if !Truthy(text) then (None, None)
    else
      var t := text.value;
      var age := match FirstAge(t) case Some(m) => Some(m.1) case None => None;
      var gender := if Contains(t, Male) then Some(Male) else if Contains(t, Female) then Some(Female) else None;
      (age, gender)
  }

  // ---------------------------------------------------------------------
  // parse_comment
  // ---------------------------------------------------------------------

  /** A `<dl class="c-comment">` element: the stripped texts of its label,
      name, meta, date and body sub-elements, `None` where one is missing. */
  datatype CommentElement = CommentElement(
    typeLabel: Option<string>, name: Option<string>, meta: Option<string>,
    date: Option<string>, body: Option<string>)

  /** The record `parse_comment` returns: exactly the keys type, name, age,
      gender, date and content, each a string or `None`. */
  datatype Comment = Comment(
    kind: Option<string>, name: Option<string>, age: Option<string>,
    gender: Option<string>, date: Option<string>, content: Option<string>)

  /** `parse_comment`: no record when both name and content are missing or
      empty; otherwise each field is the text of its sub-element, and age
      and gender come from the meta text. */
  function ParseComment(e: CommentElement): (r: Option<Comment>)
    ensures r.None? <==> !Truthy(e.name) && !Truthy(e.body)
    ensures r.Some? ==> Truthy(r.value.name) || Truthy(r.value.content)
    ensures r.Some? ==>
      && r.value.kind == e.typeLabel && r.value.name == e.name
      && r.value.date == e.date && r.value.content == e.body
      && (r.value.age, r.value.gender) == ParseAgeGender(e.meta)
  {
    var ag := if e.meta.Some? then ParseAgeGender(e.meta) else (None, None);
    if !Truthy(e.name) && !Truthy(e.body) then None
    else Some(Comment(e.typeLabel, e.name, ag.0, ag.1, e.date, e.body))
  }

  // ---------------------------------------------------------------------
  // get_page_comments
  // ---------------------------------------------------------------------

  /** The records of the elements that parse, in document order. */
  function Kept(es: seq<CommentElement>): (r: seq<Comment>)
    ensures |r| <= |es|
    ensures forall i :: 0 <= i < |r| ==> Truthy(r[i].name) || Truthy(r[i].content)
    decreases |es|
  {
    if es == [] then []
    else
      var last := es[|es| - 1];
      Kept(es[..|es| - 1]) + match ParseComment(last) case Some(c) => [c] case None => []
  }

  /** Keeping distributes over concatenation, so the kept records keep the
      document order of their elements. */
  lemma {:induction false} KeptAppend(a: seq<CommentElement>, b: seq<CommentElement>)
    ensures Kept(a + b) == Kept(a) + Kept(b)
    decreases |b|
  {
    if b == [] {
      assert a + b == a;
    } else {
      var b' := b[..|b| - 1];
      assert (a + b)[..|a + b| - 1] == a + b';
      assert (a + b)[|a + b| - 1] == b[|b| - 1];
      KeptAppend(a, b');
    }
  }

  /** A record is kept exactly when some element parses to it. */
  lemma {:induction false} KeptMembers(es: seq<CommentElement>, c: Comment)
    ensures c in Kept(es) <==> exists i :: 0 <= i < |es| && ParseComment(es[i]) == Some(c)
    decreases |es|
  {
    if es != [] {
      var init := es[..|es| - 1];
      KeptMembers(init, c);
      if exists i :: 0 <= i < |init| && ParseComment(init[i]) == Some(c) {
        var i :| 0 <= i < |init| && ParseComment(init[i]) == Some(c);
        assert ParseComment(es[i]) == Some(c);
      }
      if exists i :: 0 <= i < |es| && ParseComment(es[i]) == Some(c) {
        var i :| 0 <= i < |es| && ParseComment(es[i]) == Some(c);
        if i < |init| {
          assert ParseComment(init[i]) == Some(c);
        }
      }
    }
  }

  /** The comments of one fetched page; a failed fetch yields none. */
  function PageComments(page: Option<seq<CommentElement>>): seq<Comment> {
    match page
    case None => []
    case Some(es) => Kept(es)
  }

  /** `get_page_comments`: parse every element and keep the records. */
  method GetPageComments(page: Option<seq<CommentElement>>) returns (comments: seq<Comment>)
    ensures comments == PageComments(page)
  {
    if page.None? {
      return [];
    }
    var es := page.value;
    comments := [];
    var i := 0;
    while i < |es|
      invariant 0 <= i <= |es|
      invariant comments == Kept(es[..i])
    {
      assert es[..i + 1][..i] == es[..i];
      var data := ParseComment(es[i]);
      if data.Some? {
        comments := comments + [data.value];
      }
      i := i + 1;
    }
    assert es[..i] == es;
  }

  // ---------------------------------------------------------------------
  // get_total_comment_count
  // ---------------------------------------------------------------------

  /** No count text starts in `h` before position `p`. */
  ghost predicate NoCountBefore(h: string, p: nat) {
    forall k: nat, o, d, c :: k < p && IsOpenParen(o) && IsCloseParen(c) && IsDigitString(d) ==> !Occurs(CountText(o, d, c), h, k)
  }

  /** The digit group of the leftmost count heading text in `h`. */
  function HeadingCount(h: string): (r: Option<string>)
    ensures r.Some? ==> IsDigitString(r.value) && exists o, c :: IsOpenParen(o) && IsCloseParen(c) && Contains(h, CountText(o, r.value, c))
    ensures r.None? ==> forall k, o, d, c :: IsOpenParen(o) && IsCloseParen(c) && IsDigitString(d) ==> !Occurs(CountText(o, d, c), h, k)
  {
    var at := (k: nat) => CountAt(h, k);
    var f := Search(|h|, at, 0);
    if f.Some? then
      var j := f.value.0 + |CountLabel|;
      var d := f.value.1;
      assert Occurs(CountText(h[j], d, h[j + |d| + 2]), h, f.value.0);
      Some(d)
    else
      assert forall k, o, d, c :: IsOpenParen(o) && IsCloseParen(c) && IsDigitString(d) ==> !Occurs(CountText(o, d, c), h, k) by {
        forall k: nat, o, d, c | IsOpenParen(o) && IsCloseParen(c) && IsDigitString(d) && Occurs(CountText(o, d, c), h, k)
          ensures false
        {
          assert k < |h| && at(k).None?;
          CountAtComplete(h, k, o, d, c);
        }
      }
      None
  }

  /** `get_total_comment_count`: the number in the first heading that holds
      a count text, or 0 when none does. */
  function TotalCommentCount(headings: seq<string>): (n: nat)
    ensures (forall k :: 0 <= k < |headings| ==> HeadingCount(headings[k]).None?) ==> n == 0
  {
    var at := (k: nat) => if k < |headings| then HeadingCount(headings[k]) else None;
    match Search(|headings|, at, 0)
    case Some((_, d)) => ParseNat(d)
    case None =>
      0
  }

  /** What `HeadingCount` reads is the leftmost count text of the
      heading: it starts at `p`, and no count text starts before `p`. */
  lemma HeadingCountLeftmost(h: string) returns (p: nat, o: char, c: char)
    requires HeadingCount(h).Some?
    ensures IsOpenParen(o) && IsCloseParen(c)
    ensures Occurs(CountText(o, HeadingCount(h).value, c), h, p) && NoCountBefore(h, p)
  {
    var at := (k: nat) => CountAt(h, k);
    var f := Search(|h|, at, 0);
    p := f.value.0;
    var d := f.value.1;
    var j := p + |CountLabel|;
    o, c := h[j], h[j + |d| + 2];
    forall k: nat, o', d', c' | k < p && IsOpenParen(o') && IsCloseParen(c') && IsDigitString(d') && Occurs(CountText(o', d', c'), h, k)
      ensures false
    {
      assert k < |h| && at(k).None?;
      CountAtComplete(h, k, o', d', c');
    }
  }

  /** A count text at `p` with none before it is the one `HeadingCount`
      reads. */
  lemma HeadingCountAt(h: string, p: nat, o: char, d: string, c: char)
    requires IsOpenParen(o) && IsCloseParen(c) && IsDigitString(d)
    requires Occurs(CountText(o, d, c), h, p) && NoCountBefore(h, p)
    ensures HeadingCount(h) == Some(d)
  {
    var at := (k: nat) => CountAt(h, k);
    CountAtComplete(h, p, o, d, c);
    assert p < |h| && at(p) == Some(d);
    forall k: nat | k < p ensures at(k).None? {
      NoCountAt(h, k, p);
    }
    var f := Search(|h|, at, 0);
    assert f.Some? && f.value.0 == p;
  }

  /** The count pattern matches nowhere before `p` when no count text
      starts there. */
  lemma NoCountAt(h: string, k: nat, p: nat)
    requires k < p && NoCountBefore(h, p)
    ensures CountAt(h, k).None?
  {
  }

  /** The first heading that holds a count text decides the count: when
      the headings before `j` hold none, and the leftmost count text in
      heading `j` (with any text around it) starts at `p` and carries the
      digits `d`, the count is the number `d` spells. */
  lemma TotalCommentCountFirst(headings: seq<string>, j: nat, p: nat, o: char, d: string, c: char)
    requires j < |headings| && IsOpenParen(o) && IsCloseParen(c) && IsDigitString(d)
    requires forall k :: 0 <= k < j ==> HeadingCount(headings[k]).None?
    requires Occurs(CountText(o, d, c), headings[j], p) && NoCountBefore(headings[j], p)
    ensures TotalCommentCount(headings) == ParseNat(d)
  {
    var at := (k: nat) => if k < |headings| then HeadingCount(headings[k]) else None;
    HeadingCountAt(headings[j], p, o, d, c);
    assert at(j) == Some(d);
    forall k | 0 <= k < j ensures at(k).None? {
    }
    var f := Search(|headings|, at, 0);
    assert f.Some? && f.value.0 == j;
  }

  // ---------------------------------------------------------------------
  // get_pagination_urls
  // ---------------------------------------------------------------------

  const PerPage := 10

  /** Number of pages for `total` comments at ten per page, rounded up. */
  function PageCount(total: nat): (p: nat)
    ensures total == 0 <==> p == 0
    ensures total > 0 ==> (p - 1) * PerPage < total <= p * PerPage
  {
    (total + PerPage - 1) / PerPage
  }

  /** `url.replace('index.html', '')`. */
  function BasePath(url: string): string {
    ReplaceAll(url, "index.html", "")
  }

  /** `f"{base_path}index{page_num:04d}.html"`. */
  function PageUrl(base: string, pageNum: nat): string {
    base + "index" + PadNat(pageNum, 4) + ".html"
  }

  /** The URLs of pages 1..`pages` when the count is known: the given URL
      for page 1 and a numbered index file for each later page. */
  function CountedUrls(url: string, pages: nat): (r: seq<string>)
    requires pages >= 1
    ensures |r| == pages && r[0] == url
    decreases pages
  {
    if pages == 1 then [url] else CountedUrls(url, pages - 1) + [PageUrl(BasePath(url), pages)]
  }

  /** Page `k + 1` of the counted URL list is the numbered file of page
      `k + 1`, for every page after the first. */
  lemma {:induction false} CountedUrlsAt(url: string, pages: nat, k: nat)
    requires 1 <= k < pages
    ensures CountedUrls(url, pages)[k] == PageUrl(BasePath(url), k + 1)
    decreases pages
  {
    if k < pages - 1 {
      CountedUrlsAt(url, pages - 1, k);
    }
  }

  /** Distinct pages get distinct URLs. */
  lemma PageUrlsDistinct(base: string, a: nat, b: nat)
    requires a != b
    ensures PageUrl(base, a) != PageUrl(base, b)
  {
    PadNatValue(a, 4);
    PadNatValue(b, 4);
    MiddleDiffers(base + "index", PadNat(a, 4), PadNat(b, 4), ".html");
  }

  /** For a URL that ends in "index.html" with no other occurrence of it,
      the numbered page URL replaces that file name. */
  lemma PageUrlReplacesIndex(dir: string, pageNum: nat)
    requires forall k :: 0 <= k < |dir| ==> !Occurs("index.html", dir + "index.html", k)
    ensures PageUrl(BasePath(dir + "index.html"), pageNum) == dir + "index" + PadNat(pageNum, 4) + ".html"
  {
    ReplaceTrailing(dir, "index.html", "");
    assert dir + "" == dir;
  }

  /** A URL without "index.html" is its own base path. */
  lemma BasePathWithoutIndex(url: string)
    requires !Contains(url, "index.html")
    ensures BasePath(url) == url
  {
    ReplaceAbsent(url, "index.html", "");
  }

  /** A pagination link: its href attribute (if any) and its stripped text. */
  datatype Link = Link(href: Option<string>, text: string)

  /** What the index page offers for pagination: its `h2` texts and the
      links of each of its `nav` elements, in document order. */
  datatype IndexPage = IndexPage(headings: seq<string>, navs: seq<seq<Link>>)

  predicate HasDigitLink(nav: seq<Link>) {
    exists i :: 0 <= i < |nav| && IsDigitString(nav[i].text)
  }

  /** The first nav with a link whose text is a number. */
  function FindPagination(navs: seq<seq<Link>>): (r: Option<seq<Link>>)
    ensures r.Some? ==> r.value in navs && HasDigitLink(r.value)
    ensures r.None? <==> forall i :: 0 <= i < |navs| ==> !HasDigitLink(navs[i])
    ensures r.Some? ==>
      exists j :: (0 <= j < |navs| && navs[j] == r.value
                   && forall k :: 0 <= k < j ==> !HasDigitLink(navs[k]))
  {
    var at := (k: nat) => if k < |navs| && HasDigitLink(navs[k]) then Some(navs[k]) else None;
    var f := Search(|navs|, at, 0);
    assert forall k :: 0 <= k < |navs| ==> (at(k).None? <==> !HasDigitLink(navs[k]));
    match f
    case Some((j, nav)) =>
      assert navs[j] == nav && forall k :: 0 <= k < j ==> !HasDigitLink(navs[k]);
      Some(nav)
    case None => None
  }

  /** A link the fallback follows: an href other than '#' or empty, and a
      number or 次へ as its text. */
  predicate Follows(l: Link) {
    Truthy(l.href) && l.href.value != "#" && (IsDigitString(l.text) || l.text == "次へ")
  }

  /** The resolved targets of the followed links, in document order. */
  function FollowedUrls(url: string, links: seq<Link>, resolve: (string, string) -> string): (r: seq<string>)
    ensures |r| <= |links|
    decreases |links|
  {
    if links == [] then []
    else
      var rest := FollowedUrls(url, links[..|links| - 1], resolve);
      var l := links[|links| - 1];
      if Follows(l) then rest + [resolve(url, l.href.value)] else rest
  }

  /** `u` is the resolved target of a followed link. */
  predicate FollowedTarget(url: string, links: seq<Link>, resolve: (string, string) -> string, u: string) {
    exists i :: 0 <= i < |links| && Follows(links[i]) && u == resolve(url, links[i].href.value)
  }

  /** The followed URLs are exactly the targets of the followed links. */
  lemma {:induction false} FollowedUrlsMembers(url: string, links: seq<Link>, resolve: (string, string) -> string, u: string)
    ensures u in FollowedUrls(url, links, resolve) <==> FollowedTarget(url, links, resolve, u)
    decreases |links|
  {
    if links != [] {
      var init, l := links[..|links| - 1], links[|links| - 1];
      FollowedUrlsMembers(url, init, resolve, u);
      if FollowedTarget(url, init, resolve, u) {
        var i :| 0 <= i < |init| && Follows(init[i]) && u == resolve(url, init[i].href.value);
        assert links[i] == init[i];
      }
      if Follows(l) && u == resolve(url, l.href.value) {
        assert links[|links| - 1] == l;
      }
      if FollowedTarget(url, links, resolve, u) {
        var i :| 0 <= i < |links| && Follows(links[i]) && u == resolve(url, links[i].href.value);
        if i < |init| {
          assert links[i] == init[i];
        }
      }
    }
  }

  /** The page URLs the fallback returns: the sorted set of the given URL
      and the followed links of the first numbered nav, or just the given
      URL when no nav is numbered. */
  function FallbackUrls(url: string, navs: seq<seq<Link>>, resolve: (string, string) -> string): (r: seq<string>) {
    match FindPagination(navs)
    case None => [url]
    case Some(nav) => SortedSet([url] + FollowedUrls(url, nav, resolve))
  }

  /** The URL list `get_pagination_urls` returns for a given index page
      (`None` when fetching it fails). */
  function PaginationUrls(url: string, page: Option<IndexPage>, resolve: (string, string) -> string): (r: seq<string>) {
    match page
    case None => [url]
    case Some(p) =>
      var total := TotalCommentCount(p.headings);
      if total > 0 then CountedUrls(url, PageCount(total)) else FallbackUrls(url, p.navs, resolve)
  }

  /** With a comment count, one URL per page: the given URL first, then the
      numbered index file of each later page. */
  lemma CountedPagination(url: string, p: IndexPage, resolve: (string, string) -> string)
    requires TotalCommentCount(p.headings) > 0
    ensures var urls := PaginationUrls(url, Some(p), resolve);
      var total := TotalCommentCount(p.headings);
      && |urls| == PageCount(total)
      && (|urls| - 1) * PerPage < total <= |urls| * PerPage
      && urls[0] == url
      && forall k :: 1 <= k < |urls| ==> urls[k] == PageUrl(BasePath(url), k + 1)
  {
    var total := TotalCommentCount(p.headings);
    forall k | 1 <= k < PageCount(total) ensures CountedUrls(url, PageCount(total))[k] == PageUrl(BasePath(url), k + 1) {
      CountedUrlsAt(url, PageCount(total), k);
    }
  }

  /** Without a comment count, the list is sorted, free of duplicates,
      holds the given URL, and otherwise only targets of followed links of
      the first numbered nav, all of them. */
  lemma FallbackPagination(url: string, p: IndexPage, resolve: (string, string) -> string)
    requires TotalCommentCount(p.headings) == 0
    ensures var urls := PaginationUrls(url, Some(p), resolve);
      && StrictlySorted(urls)
      && url in urls
      && (FindPagination(p.navs).None? ==> urls == [url])
      && (FindPagination(p.navs).Some? ==>
          var nav := FindPagination(p.navs).value;
          forall u :: u in urls <==> u == url || FollowedTarget(url, nav, resolve, u))
  {
    if FindPagination(p.navs).Some? {
      var nav := FindPagination(p.navs).value;
      var urls := PaginationUrls(url, Some(p), resolve);
      forall u ensures u in urls <==> u == url || FollowedTarget(url, nav, resolve, u) {
        FollowedUrlsMembers(url, nav, resolve, u);
      }
    }
  }

  /** `get_pagination_urls`: with a count, append the numbered page URLs
      one by one; otherwise add the followed links of the first numbered
      nav to a set and sort it. */
  method GetPaginationUrls(url: string, page: Option<IndexPage>, resolve: (string, string) -> string)
    returns (urls: seq<string>)
    ensures urls == PaginationUrls(url, page, resolve)
  {
    if page.None? {
      return [url];
    }
    var p := page.value;
    var total := TotalCommentCount(p.headings);
    if total > 0 {
      urls := CountedPageUrls(url, (total + PerPage - 1) / PerPage);
    } else {
      var pagination := FindPagination(p.navs);
      if pagination.None? {
        return [url];
      }
      urls := LinkedPageUrls(url, pagination.value, resolve);
    }
  }

  /** The counted branch: the given URL, then pages 2..`totalPages`. */
  method CountedPageUrls(url: string, totalPages: nat) returns (urls: seq<string>)
    requires totalPages >= 1
    ensures urls == CountedUrls(url, totalPages)
  {
    urls := [url];
    var base := BasePath(url);
    var pageNum := 2;
    while pageNum <= totalPages
      invariant 2 <= pageNum <= totalPages + 1
      invariant urls == CountedUrls(url, pageNum - 1)
    {
      urls := urls + [base + "index" + PadNat(pageNum, 4) + ".html"];
      pageNum := pageNum + 1;
    }
  }

  /** The fallback branch: the given URL and the target of every followed
      link, added to a set kept sorted. */
  method LinkedPageUrls(url: string, links: seq<Link>, resolve: (string, string) -> string) returns (urls: seq<string>)
    ensures urls == SortedSet([url] + FollowedUrls(url, links, resolve))
  {
    urls := [url];
    var i := 0;
    while i < |links|
      invariant 0 <= i <= |links|
      invariant urls == SortedSet([url] + FollowedUrls(url, links[..i], resolve))
    {
      var l := links[i];
      assert links[..i + 1][..i] == links[..i];
      assert [url] + FollowedUrls(url, links[..i + 1], resolve) ==
        if Follows(l) then ([url] + FollowedUrls(url, links[..i], resolve)) + [resolve(url, l.href.value)]
        else [url] + FollowedUrls(url, links[..i], resolve);
      if l.href.Some? && l.href.value != "" && l.href.value != "#" && (IsDigitString(l.text) || l.text == "次へ") {
        urls := InsertSorted(urls, resolve(url, l.href.value));
      }
      i := i + 1;
    }
    assert links[..i] == links;
  }

  // ---------------------------------------------------------------------
  // scrape_all_comments
  // ---------------------------------------------------------------------

  /** The comments of the pages at `urls`, page by page, as `fetch` yields
      each page's elements (`None` for a page that fails). */
  function AllComments(urls: seq<string>, fetch: string -> Option<seq<CommentElement>>): (r: seq<Comment>)
    ensures forall i :: 0 <= i < |r| ==> Truthy(r[i].name) || Truthy(r[i].content)
    decreases |urls|
  {
    if urls == [] then []
    else AllComments(urls[..|urls| - 1], fetch) + PageComments(fetch(urls[|urls| - 1]))
  }

  /** `c` is among the comments of one of the pages. */
  predicate OnSomePage(urls: seq<string>, fetch: string -> Option<seq<CommentElement>>, c: Comment) {
    exists i :: 0 <= i < |urls| && c in PageComments(fetch(urls[i]))
  }

  /** Every collected comment came from some page, and every comment of
      every page is collected. */
  lemma {:induction false} AllCommentsMembers(urls: seq<string>, fetch: string -> Option<seq<CommentElement>>, c: Comment)
    ensures c in AllComments(urls, fetch) <==> OnSomePage(urls, fetch, c)
    decreases |urls|
  {
    if urls != [] {
      var init, last := urls[..|urls| - 1], urls[|urls| - 1];
      AllCommentsMembers(init, fetch, c);
      assert AllComments(urls, fetch) == AllComments(init, fetch) + PageComments(fetch(last));
      OnSomePageSnoc(init, last, fetch, c);
      assert urls == init + [last];
    }
  }

  /** One more page: `c` is on some page exactly when it was before or is
      on the new one. */
  lemma OnSomePageSnoc(init: seq<string>, last: string, fetch: string -> Option<seq<CommentElement>>, c: Comment)
    ensures OnSomePage(init + [last], fetch, c) <==> OnSomePage(init, fetch, c) || c in PageComments(fetch(last))
  {
    var urls := init + [last];
    if OnSomePage(init, fetch, c) {
      var i :| 0 <= i < |init| && c in PageComments(fetch(init[i]));
      assert urls[i] == init[i];
    }
    if c in PageComments(fetch(last)) {
      assert urls[|init|] == last;
    }
    if OnSomePage(urls, fetch, c) {
      var i :| 0 <= i < |urls| && c in PageComments(fetch(urls[i]));
      if i < |init| {
        assert urls[i] == init[i];
      }
    }
  }

  lemma AllCommentsNext(urls: seq<string>, i: nat, fetch: string -> Option<seq<CommentElement>>)
    requires i < |urls|
    ensures AllComments(urls[..i + 1], fetch) == AllComments(urls[..i], fetch) + PageComments(fetch(urls[i]))
  {
    assert urls[..i + 1][..i] == urls[..i];
  }

  /** `scrape_all_comments`: the comments of every page URL, in page order. */
  method ScrapeAllComments(baseUrl: string, index: Option<IndexPage>, resolve: (string, string) -> string,
                           fetch: string -> Option<seq<CommentElement>>)
    returns (all: seq<Comment>)
    ensures all == AllComments(PaginationUrls(baseUrl, index, resolve), fetch)
  {
    var pageUrls := GetPaginationUrls(baseUrl, index, resolve);
    all := [];
    var i := 0;
    while i < |pageUrls|
      invariant 0 <= i <= |pageUrls|
      invariant all == AllComments(pageUrls[..i], fetch)
    {
      var comments := GetPageComments(fetch(pageUrls[i]));
      AllCommentsNext(pageUrls, i, fetch);
      all := all + comments;
      i := i + 1;
    }
    assert pageUrls[..i] == pageUrls;
  }

  // ---------------------------------------------------------------------
  // Comment counts by type (main)
  // ---------------------------------------------------------------------

  /** How many comments have type `t`. */
  function CountKind(comments: seq<Comment>, t: Option<string>): (n: nat)
    ensures n <= |comments|
    ensures n > 0 <==> exists i :: 0 <= i < |comments| && comments[i].kind == t
    decreases |comments|
  {
    if comments == [] then 0
    else
      var init := comments[..|comments| - 1];
      assert forall i :: 0 <= i < |init| ==> init[i] == comments[i];
      CountKind(init, t) + (if comments[|comments| - 1].kind == t then 1 else 0)
  }

  /** The type-count loop of `main`: one entry per type that occurs (the
      'type' key is always present, so a missing type counts under `None`),
      holding how many comments have it. */
  method TypeCounts(comments: seq<Comment>) returns (types: map<Option<string>, nat>)
    ensures forall t :: t in types <==> exists i :: 0 <= i < |comments| && comments[i].kind == t
    ensures forall t :: t in types ==> types[t] == CountKind(comments, t)
  {
    types := map[];
    var i := 0;
    while i < |comments|
      invariant 0 <= i <= |comments|
      invariant forall t :: t in types <==> CountKind(comments[..i], t) > 0
      invariant forall t :: t in types ==> types[t] == CountKind(comments[..i], t)
    {
      var t := comments[i].kind;
      assert comments[..i + 1][..i] == comments[..i];
      types := types[t := (if t in types then types[t] else 0) + 1];
      i := i + 1;
    }
    assert comments[..i] == comments;
  }
}
