/** The article scraper (`scraper/articles/article_scraper.py`): the
    ordered fallback chains that pick an article's title and date, the
    assembly of its body text from headings, paragraphs and quotations,
    and the validity check on the scraped record.

    A parsed page is an input: the parts of it the scraper looks at are
    given as a `Document`. Every text that `get_text(strip=True)` would
    produce is a plain string here; `None` stands for a missing element. */
module ArticleScraper {
  import opened Values
  import opened Text
  import opened Patterns

  datatype Tag = H2 | H3 | H4 | P | Blockquote

  /** One of the `h2`/`h3`/`h4`/`p`/`blockquote` elements of the body
      container, in document order: its tag, its class list and its
      stripped text. */
  datatype ContentElement = ContentElement(tag: Tag, classes: seq<string>, text: string)

  /** A `<main>` or `<article>` element: the stripped text of its first
      `h1` (if it has one), its full text, the full text of its first
      `div`/`section`/`header` (if it has one), and its content elements. */
  datatype Container = Container(
    h1: Option<string>, text: string, firstBlock: Option<string>, elements: seq<ContentElement>)

  /** The page: its first `<article>` and `<main>`, the stripped texts of
      its first `h1`, `<title>` and `<time>` elements. */
  datatype Document = Document(
    article: Option<Container>, main: Option<Container>,
    h1: Option<string>, title: Option<string>, time: Option<string>)

  // ---------------------------------------------------------------------
  // get_title
  // ---------------------------------------------------------------------

  /** The `h1` texts `get_title` tries, in order: the article's, the
      main element's, the document's. */
  function H1Candidates(doc: Document): (r: seq<Option<string>>)
    ensures |r| == 3
  {
    [ if doc.article.Some? then doc.article.value.h1 else None,
      if doc.main.Some? then doc.main.value.h1 else None,
      doc.h1 ]
  }

  /** The title taken from the `<title>` element: the part before the
      first " - ", stripped. */
  function TitleFromTag(t: string): string {
    Strip(BeforeFirst(t, " - "))
  }

  /** The position of the first non-empty text among `cs`. */
  function FirstTruthy(cs: seq<Option<string>>): (r: Option<nat>)
    ensures r.Some? ==> r.value < |cs| && Truthy(cs[r.value])
    ensures forall j :: 0 <= j < |cs| && (r.None? || j < r.value) ==> !Truthy(cs[j])
  {
    var at := (k: nat) => if k < |cs| && Truthy(cs[k]) then Some(k) else None;
    var f := Search(|cs|, at, 0);
    assert forall j :: 0 <= j < |cs| ==> (at(j).None? <==> !Truthy(cs[j]));
    match f
    case Some((k, _)) => Some(k)
    case None => None
  }

  /** `get_title`: the first non-empty `h1` candidate; failing all three,
      the title element's text up to " - "; failing that, nothing. */
  function GetTitle(doc: Document): (r: Option<string>)
    ensures var f := FirstTruthy(H1Candidates(doc));
      && (f.Some? ==> r == H1Candidates(doc)[f.value])
      && (f.None? ==> r == if doc.title.Some? then Some(TitleFromTag(doc.title.value)) else None)
  {
    if doc.article.Some? && Truthy(doc.article.value.h1) then doc.article.value.h1
    else if doc.main.Some? && Truthy(doc.main.value.h1) then doc.main.value.h1
    else if Truthy(doc.h1) then doc.h1
    else if doc.title.Some? then Some(TitleFromTag(doc.title.value))
    else None
  }

  /** The title from the title element has no surrounding whitespace and
      no " - " in it; without a " - " it is the whole text, stripped. */
  lemma TitleFromTagProps(t: string)
    ensures Stripped(TitleFromTag(t))
    ensures !Contains(TitleFromTag(t), " - ")
    ensures !Contains(t, " - ") ==> TitleFromTag(t) == Strip(t)
  {
    StripKeepsAbsent(BeforeFirst(t, " - "), " - ");
  }

  // ---------------------------------------------------------------------
  // get_date
  // ---------------------------------------------------------------------

  /** `get_date`: the `<time>` text if there is such an element; else the
      first date text in the article's text; else the first date text in
      the first block of the main element. */
  function GetDate(doc: Document): (r: Option<string>)
    ensures doc.time.Some? ==> r == doc.time
    ensures doc.time.None? && r.Some? ==>
      && IsDateText(r.value)
      && ((doc.article.Some? && Contains(doc.article.value.text, r.value)) ||
          (doc.main.Some? && doc.main.value.firstBlock.Some? && Contains(doc.main.value.firstBlock.value, r.value)))
    ensures doc.time.None? && doc.article.Some? && FirstDate(doc.article.value.text).Some? ==>
      r == FirstDate(doc.article.value.text)
    ensures doc.time.None? && !(doc.article.Some? && FirstDate(doc.article.value.text).Some?)
      && doc.main.Some? && doc.main.value.firstBlock.Some?
      ==> r == FirstDate(doc.main.value.firstBlock.value)
    ensures doc.time.None? && r.None? ==>
      && (doc.article.Some? ==> forall k, m :: IsDateText(m) ==> !Occurs(m, doc.article.value.text, k))
      && (doc.main.Some? && doc.main.value.firstBlock.Some? ==>
            forall k, m :: IsDateText(m) ==> !Occurs(m, doc.main.value.firstBlock.value, k))
  {
    if doc.time.Some? then doc.time
    else if doc.article.Some? && FirstDate(doc.article.value.text).Some? then FirstDate(doc.article.value.text)
    else if doc.main.Some? && doc.main.value.firstBlock.Some? then FirstDate(doc.main.value.firstBlock.value)
    else None
  }

  /** A date text anywhere in the article's text is found before the main
      element is consulted. */
  lemma ArticleDateFirst(doc: Document, k: nat, m: string)
    requires doc.time.None? && doc.article.Some? && IsDateText(m) && Occurs(m, doc.article.value.text, k)
    ensures GetDate(doc).Some? && Contains(doc.article.value.text, GetDate(doc).value)
  {
  }

  // ---------------------------------------------------------------------
  // get_content
  // ---------------------------------------------------------------------

  const BlockedClasses := ["share", "sns", "related", "tag"]
  const SkippedTexts := ["INDEX", "シェアする", "もっと見る"]

  /** The element carries one of the classes that mark sharing buttons,
      related links or tags. */
  predicate Blocked(e: ContentElement) {
    exists c :: c in BlockedClasses && c in e.classes
  }

  /** Empty texts and navigation labels are skipped. */
  predicate Skipped(text: string) {
    text == "" || text in SkippedTexts
  }

  predicate IsHeading(t: Tag) {
    t == H2 || t == H3 || t == H4
  }

  /** What one element contributes to the body: a heading becomes a
      "## " line set off by line breaks, a quotation is set off by line
      breaks, a paragraph is its text; blocked and skipped elements
      contribute nothing. */
  function Part(e: ContentElement): (r: Option<string>)
    ensures r.None? <==> Blocked(e) || Skipped(e.text)
    ensures r.Some? && IsHeading(e.tag) ==> r.value == "\n## " + e.text + "\n"
    ensures r.Some? && e.tag == Blockquote ==> r.value == "\n" + e.text + "\n"
    ensures r.Some? && e.tag == P ==> r.value == e.text
  {
    if Blocked(e) || Skipped(e.text) then None
    else if IsHeading(e.tag) then Some("\n## " + e.text + "\n")
    else if e.tag == Blockquote then Some("\n" + e.text + "\n")
    else Some(e.text)
  }

  /** The contributions of the elements, in document order. */
  function Parts(es: seq<ContentElement>): (r: seq<string>)
    ensures |r| <= |es|
    decreases |es|
  {
    if es == [] then []
    else
      var init := es[..|es| - 1];
      Parts(init) + match Part(es[|es| - 1]) case Some(p) => [p] case None => []
  }

  /** A piece of body text is an element's contribution exactly when some
      element contributes it, so blocked and skipped elements never do. */
  lemma {:induction false} PartsMembers(es: seq<ContentElement>, p: string)
    ensures p in Parts(es) <==> exists i :: 0 <= i < |es| && Part(es[i]) == Some(p)
    decreases |es|
  {
    if es != [] {
      var init := es[..|es| - 1];
      var last := Part(es[|es| - 1]);
      assert Parts(es) == Parts(init) + if last.Some? then [last.value] else [];
      assert p in Parts(es) <==> p in Parts(init) || last == Some(p);
      PartsMembers(init, p);
      if exists i :: 0 <= i < |init| && Part(init[i]) == Some(p) {
        var i :| 0 <= i < |init| && Part(init[i]) == Some(p);
        assert Part(es[i]) == Some(p);
      }
      if exists i :: 0 <= i < |es| && Part(es[i]) == Some(p) {
        var i :| 0 <= i < |es| && Part(es[i]) == Some(p);
        if i < |init| {
          assert Part(init[i]) == Some(p);
        }
      }
    }
  }

  /** The contributions of consecutive runs of elements follow each other. */
  lemma {:induction false} PartsAppend(a: seq<ContentElement>, b: seq<ContentElement>)
    ensures Parts(a + b) == Parts(a) + Parts(b)
    decreases |b|
  {
    if b == [] {
      assert a + b == a;
    } else {
      var b' := b[..|b| - 1];
      assert (a + b)[..|a + b| - 1] == a + b';
      assert (a + b)[|a + b| - 1] == b[|b| - 1];
      PartsAppend(a, b');
    }
  }

  /** The body built from content elements: the contributions joined by a
      blank line and stripped, or nothing when that is empty. */
  function BodyOf(es: seq<ContentElement>): (r: Option<string>)
    ensures r.Some? ==> r.value != "" && Stripped(r.value)
  {
    var s := Strip(Join(Parts(es), "\n\n"));
    if s == "" then None else Some(s)
  }

  /** The container `get_content` reads: the main element, or the article
      element when there is no main element. */
  function BodyContainer(doc: Document): Option<Container> {
    if doc.main.Some? then doc.main else doc.article
  }

  /** What `get_content` returns for a page. */
  function ContentOf(doc: Document): (r: Option<string>)
    ensures BodyContainer(doc).None? ==> r.None?
  {
    match BodyContainer(doc)
    case None => None
    case Some(c) => BodyOf(c.elements)
  }

  /** `get_content`: one pass over the content elements, skipping the
      blocked and the empty ones and formatting the rest. */
  method GetContent(doc: Document) returns (content: Option<string>)
    ensures content == ContentOf(doc)
  {
    var container := if doc.main.Some? then doc.main else doc.article;
    if container.None? {
      return None;
    }
    var es := container.value.elements;
    var parts: seq<string> := [];
    var i := 0;
    while i < |es|
      invariant 0 <= i <= |es|
      invariant parts == Parts(es[..i])
    {
      assert es[..i + 1][..i] == es[..i];
      var e := es[i];
      if exists c :: c in BlockedClasses && c in e.classes {
        i := i + 1;
        continue;
      }
      var text := e.text;
      if text == "" || text in SkippedTexts {
        i := i + 1;
        continue;
      }
      if e.tag == H2 || e.tag == H3 || e.tag == H4 {
        parts := parts + ["\n## " + text + "\n"];
      } else if e.tag == Blockquote {
        parts := parts + ["\n" + text + "\n"];
      } else {
        parts := parts + [text];
      }
      i := i + 1;
    }
    assert es[..i] == es;
    var s := Strip(Join(parts, "\n\n"));
    content := if s == "" then None else Some(s);
  }

  /** A contribution of an element whose text has no surrounding
      whitespace always has a non-space character. */
  lemma PartNotBlank(e: ContentElement)
    requires Stripped(e.text) && Part(e).Some?
    ensures !AllSpace(Part(e).value)
  {
    var p := Part(e).value;
    if IsHeading(e.tag) {
      assert p[2] == '#';
    } else if e.tag == Blockquote {
      assert p[1] == e.text[0];
    } else {
      assert p[0] == e.text[0];
    }
  }

  lemma {:induction false} PartsNotBlank(es: seq<ContentElement>)
    requires forall i :: 0 <= i < |es| ==> Stripped(es[i].text)
    ensures forall j :: 0 <= j < |Parts(es)| ==> !AllSpace(Parts(es)[j])
  {
    var ps := Parts(es);
    forall j | 0 <= j < |ps| ensures !AllSpace(ps[j]) {
      assert ps[j] in ps;
      PartsMembers(es, ps[j]);
      var i :| 0 <= i < |es| && Part(es[i]) == Some(ps[j]);
      PartNotBlank(es[i]);
    }
  }

  lemma {:induction false} NoPartsIff(es: seq<ContentElement>)
    ensures Parts(es) == [] <==> forall i :: 0 <= i < |es| ==> Part(es[i]).None?
  {
    if Parts(es) != [] {
      PartsMembers(es, Parts(es)[0]);
    }
    if exists i :: 0 <= i < |es| && Part(es[i]).Some? {
      var i :| 0 <= i < |es| && Part(es[i]).Some?;
      PartsMembers(es, Part(es[i]).value);
    }
  }

  /** With element texts as `get_text(strip=True)` yields them, the body is
      missing exactly when no element contributes. */
  lemma {:induction false} BodyMissingIff(es: seq<ContentElement>)
    requires forall i :: 0 <= i < |es| ==> Stripped(es[i].text)
    ensures BodyOf(es).None? <==> Parts(es) == []
    ensures BodyOf(es).None? <==> forall i :: 0 <= i < |es| ==> Part(es[i]).None?
  {
    BodyMissingNoParts(es);
    NoPartsIff(es);
  }

  lemma BodyMissingNoParts(es: seq<ContentElement>)
    requires forall i :: 0 <= i < |es| ==> Stripped(es[i].text)
    ensures BodyOf(es).None? <==> Parts(es) == []
  {
    var j := Join(Parts(es), "\n\n");
    assert BodyOf(es).None? <==> AllSpace(j);
    JoinedBlankIff(es);
  }

  /** The joined contributions are blank exactly when there are none. */
  lemma JoinedBlankIff(es: seq<ContentElement>)
    requires forall i :: 0 <= i < |es| ==> Stripped(es[i].text)
    ensures AllSpace(Join(Parts(es), "\n\n")) <==> Parts(es) == []
  {
    if Parts(es) != [] {
      JoinedNotBlank(es);
    }
  }

  lemma JoinedNotBlank(es: seq<ContentElement>)
    requires forall i :: 0 <= i < |es| ==> Stripped(es[i].text)
    requires Parts(es) != []
    ensures !AllSpace(Join(Parts(es), "\n\n"))
  {
    var ps := Parts(es);
    PartsNotBlank(es);
    JoinFirstNotBlank(ps, "\n\n");
  }

  /** A body of one plain paragraph is that paragraph's text. */
  lemma SingleParagraph(classes: seq<string>, text: string)
    requires Stripped(text) && !Skipped(text)
    requires forall c :: c in BlockedClasses ==> c !in classes
    ensures BodyOf([ContentElement(P, classes, text)]) == Some(text)
  {
    var es := [ContentElement(P, classes, text)];
    assert es[..0] == [];
    assert Parts(es) == [text];
    StripOfStripped(text);
  }

  // ---------------------------------------------------------------------
  // scrape_article
  // ---------------------------------------------------------------------

  datatype ArticleRecord = ArticleRecord(title: string, date: Option<string>, url: string, content: string)

  /** `scrape_article`: nothing when the page cannot be had or its title or
      body is empty; otherwise the title, date and body of the page and the
      URL it was scraped from. */
  method ScrapeArticle(url: string, page: Option<Document>) returns (r: Option<ArticleRecord>)
    ensures page.None? ==> r.None?
    ensures page.Some? ==> (r.None? <==> !Truthy(GetTitle(page.value)) || ContentOf(page.value).None?)
    ensures r.Some? ==>
      && r.value.url == url
      && r.value.title != "" && r.value.content != ""
      && Some(r.value.title) == GetTitle(page.value)
      && r.value.date == GetDate(page.value)
      && Some(r.value.content) == ContentOf(page.value)
  {
    if page.None? {
      return None;
    }
    var doc := page.value;
    var title := GetTitle(doc);
    var date := GetDate(doc);
    var content := GetContent(doc);
    if !Truthy(title) || !Truthy(content) {
      return None;
    }
    r := Some(ArticleRecord(title.value, date, url, content.value));
  }
}
