/** The batch comment scraper (`scraper/comments_scraper/batch_scraper.py`):
    for every article id of an inclusive range, form the topic id, the
    comment page URL and the output file name, scrape the comments and
    count the id as a success, a skip or an error.

    The site is an input: the status the first request for a URL gets (or
    a network failure), and what the comment scraper sees when it walks the
    pages of a topic. Writing a file is an input too: whether it succeeds. */
module BatchScraper {
  import opened Values
  import opened Text
  import opened CommentScraper

  datatype Response = NetworkError | Status(code: int)

  /** What the scraper sees of the site. */
  datatype Site = Site(
    firstResponse: string -> Response,
    index: string -> Option<IndexPage>,
    resolve: (string, string) -> string,
    fetch: string -> Option<seq<CommentElement>>)

  /** `f"{article_id:03d}"`. */
  function ArticleNum(id: int): string {
    FormatPadded(id, 3)
  }

  /** `f"{base_category}_{article_num}"`. */
  function TopicId(category: string, id: int): string {
    category + "_" + ArticleNum(id)
  }

  function TopicUrl(category: string, id: int): string {
    "https://www.nhk.or.jp/minplus/" + category + "/comments/" + TopicId(category, id) + "/index.html"
  }

  /** The file the comments of `id` are saved to. */
  function OutputFile(outputDir: string, category: string, id: int): string {
    PathJoin(PathJoin(outputDir, category), TopicId(category, id) + ".json")
  }

  /** A non-negative id reads back from its topic id, which holds at least
      three digits after the category and the underscore. */
  lemma TopicIdParts(category: string, id: nat)
    ensures var t := TopicId(category, id);
      && t[..|category| + 1] == category + "_"
      && IsDigitString(t[|category| + 1..]) && |t| >= |category| + 4
      && ParseNat(t[|category| + 1..]) == id
  {
    var t := TopicId(category, id);
    assert t[|category| + 1..] == ArticleNum(id);
    FormatPaddedValue(id, 3);
  }

  /** Distinct ids get distinct topic ids. */
  lemma TopicIdInjective(category: string, a: int, b: int)
    requires TopicId(category, a) == TopicId(category, b)
    ensures a == b
  {
    var ta, tb := TopicId(category, a), TopicId(category, b);
    assert ArticleNum(a) == ta[|category| + 1..];
    assert ArticleNum(b) == tb[|category| + 1..];
    FormatPaddedInjective(a, b, 3);
  }

  /** `f"{n:03d}"` never gives two ids the same text. */
  lemma FormatPaddedInjective(a: int, b: int, width: nat)
    requires FormatPadded(a, width) == FormatPadded(b, width)
    ensures a == b
  {
    var s := FormatPadded(a, width);
    FormatPaddedValue(a, width);
    FormatPaddedValue(b, width);
    assert IsDigit(s[0]) <==> a >= 0;
    assert IsDigit(s[0]) <==> b >= 0;
  }

  /** How one id ends. */
  datatype Outcome = Success(file: string, comments: seq<Comment>) | Skip | Error

  /** The comments `scrape_all_comments` collects for a topic URL. */
  function TopicComments(site: Site, url: string): seq<Comment> {
    AllComments(PaginationUrls(url, site.index(url), site.resolve), site.fetch)
  }

  /** One id: a failed request or a failed write is an error; a 404, any
      other status but 200, or a topic without comments is a skip; every
      other id saves its comments. */
  function Classify(site: Site, write: string -> bool, outputDir: string, category: string, id: int): (o: Outcome)
    ensures o.Success? ==>
      && site.firstResponse(TopicUrl(category, id)) == Status(200)
      && o.file == OutputFile(outputDir, category, id)
      && o.comments == TopicComments(site, TopicUrl(category, id)) && o.comments != []
    ensures site.firstResponse(TopicUrl(category, id)).Status? && site.firstResponse(TopicUrl(category, id)).code != 200 ==> o.Skip?
    ensures o.Skip? ==> site.firstResponse(TopicUrl(category, id)).Status?
    ensures o.Error? ==> site.firstResponse(TopicUrl(category, id)).NetworkError? || !write(OutputFile(outputDir, category, id))
    ensures site.firstResponse(TopicUrl(category, id)).NetworkError? ==> o.Error?
    ensures site.firstResponse(TopicUrl(category, id)) == Status(200) && TopicComments(site, TopicUrl(category, id)) == [] ==> o.Skip?
    ensures site.firstResponse(TopicUrl(category, id)) == Status(200) && TopicComments(site, TopicUrl(category, id)) != [] ==>
      && (o.Success? <==> write(OutputFile(outputDir, category, id)))
      && (!write(OutputFile(outputDir, category, id)) ==> o.Error?)
  {
    var url := TopicUrl(category, id);
    var file := OutputFile(outputDir, category, id);
    match site.firstResponse(url)
    case NetworkError => Error
    case Status(code) =>
      if code == 404 then Skip
      else if code != 200 then Skip
      else
        var comments := TopicComments(site, url);
        if |comments| == 0 then Skip
        else if !write(file) then Error
        else Success(file, comments)
  }

  /** The outcome of every id for one run. */
  function Outcomes(site: Site, write: string -> bool, outputDir: string, category: string): int -> Outcome {
    id => Classify(site, write, outputDir, category, id)
  }

  /** One more outcome added to a (success, skip, error) tally. */
  function TallyStep(t: (nat, nat, nat), o: Outcome): (nat, nat, nat) {
    match o
    case Success(_, _) => (t.0 + 1, t.1, t.2)
    case Skip => (t.0, t.1 + 1, t.2)
    case Error => (t.0, t.1, t.2 + 1)
  }

  /** Success, skip and error counts of the ids `start..last`. */
  function Tally(outcome: int -> Outcome, start: int, last: int): (t: (nat, nat, nat))
    ensures t.0 + t.1 + t.2 == if last >= start then last - start + 1 else 0
    decreases last - start
  {
    if last < start then (0, 0, 0)
    else
      TallyStep(Tally(outcome, start, last - 1), outcome(last))
  }

  /** Adding the id `last` to a range adds its outcome to the tally and,
      on success, its file to the end of the saved list. */
  lemma TallyNext(outcome: int -> Outcome, start: int, last: int)
    requires start <= last
    ensures Tally(outcome, start, last) == TallyStep(Tally(outcome, start, last - 1), outcome(last))
    ensures Saved(outcome, start, last) ==
      if outcome(last).Success? then Saved(outcome, start, last - 1) + [(outcome(last).file, outcome(last).comments)]
      else Saved(outcome, start, last - 1)
  {
  }

  /** The files saved for the ids `start..last`, in ascending id order. */
  function Saved(outcome: int -> Outcome, start: int, last: int): (r: seq<(string, seq<Comment>)>)
    ensures |r| == Tally(outcome, start, last).0
    decreases last - start
  {
    if last < start then []
    else
      var r := Saved(outcome, start, last - 1);
      match outcome(last)
      case Success(f, cs) => r + [(f, cs)]
      case _ => r
  }

  /** The `i`-th saved file is that of a successful id of the range. */
  lemma {:induction false} SavedAt(outcome: int -> Outcome, start: int, last: int, i: nat) returns (id: int)
    requires i < |Saved(outcome, start, last)|
    ensures start <= id <= last && outcome(id) == Success(Saved(outcome, start, last)[i].0, Saved(outcome, start, last)[i].1)
    decreases last - start
  {
    var prev := Saved(outcome, start, last - 1);
    if i < |prev| {
      id := SavedAt(outcome, start, last - 1, i);
    } else {
      id := last;
    }
  }

  /** No two entries name the same file. */
  predicate DistinctFiles(r: seq<(string, seq<Comment>)>) {
    forall i, j :: 0 <= i < j < |r| ==> r[i].0 != r[j].0
  }

  /** When distinct ids never save to the same file, no file is saved
      twice in one run. */
  lemma {:induction false} SavedDistinct(outcome: int -> Outcome, start: int, last: int)
    requires forall a, b :: outcome(a).Success? && outcome(b).Success? && outcome(a).file == outcome(b).file ==> a == b
    ensures DistinctFiles(Saved(outcome, start, last))
    decreases last - start
  {
    if last >= start {
      var prev := Saved(outcome, start, last - 1);
      var r := Saved(outcome, start, last);
      SavedDistinct(outcome, start, last - 1);
      if outcome(last).Success? {
        var x := (outcome(last).file, outcome(last).comments);
        assert r == prev + [x];
        forall i, j | 0 <= i < j < |r| ensures r[i].0 != r[j].0 {
          assert r[i] == prev[i];
          if j < |prev| {
            assert r[j] == prev[j];
          } else {
            var id := SavedAt(outcome, start, last - 1, i);
            assert r[j] == x;
            assert outcome(id).file != outcome(last).file;
          }
        }
      } else {
        assert r == prev;
      }
    }
  }

  /** In a run of the batch scraper, every saved file is the output file of
      its id and holds that topic's comments, and no file is saved twice. */
  lemma RunSavesDistinctFiles(site: Site, write: string -> bool, outputDir: string, category: string, start: int, last: int)
    ensures DistinctFiles(Saved(Outcomes(site, write, outputDir, category), start, last))
    ensures forall i :: 0 <= i < |Saved(Outcomes(site, write, outputDir, category), start, last)| ==>
      exists id :: start <= id <= last &&
        Saved(Outcomes(site, write, outputDir, category), start, last)[i] ==
          (OutputFile(outputDir, category, id), TopicComments(site, TopicUrl(category, id)))
  {
    var o := Outcomes(site, write, outputDir, category);
    var r := Saved(o, start, last);
    forall a, b | o(a).Success? && o(b).Success? && o(a).file == o(b).file ensures a == b {
      OutputFileInjective(outputDir, category, a, b);
    }
    SavedDistinct(o, start, last);
    forall i | 0 <= i < |r|
      ensures exists id :: start <= id <= last && r[i] == (OutputFile(outputDir, category, id), TopicComments(site, TopicUrl(category, id)))
    {
      var id := SavedAt(o, start, last, i);
      assert o(id) == Classify(site, write, outputDir, category, id);
    }
  }

  /** No two ids share an output file. */
  lemma OutputFileInjective(outputDir: string, category: string, a: int, b: int)
    requires OutputFile(outputDir, category, a) == OutputFile(outputDir, category, b)
    ensures a == b
  {
    var d := PathJoin(outputDir, category);
    var fa, fb := TopicId(category, a) + ".json", TopicId(category, b) + ".json";
    PathJoinInjective(d, fa, fb);
    assert TopicId(category, a) == fa[..|fa| - 5];
    assert TopicId(category, b) == fb[..|fb| - 5];
    TopicIdInjective(category, a, b);
  }

  /** Joining onto the same directory keeps distinct names of the same
      kind (both absolute or both relative) distinct. */
  lemma PathJoinInjective(d: string, x: string, y: string)
    requires PathJoin(d, x) == PathJoin(d, y)
    requires x != [] && y != [] && (x[0] == '/' <==> y[0] == '/')
    ensures x == y
  {
    var j := PathJoin(d, x);
    if x[0] == '/' {
    } else if d == [] || d[|d| - 1] == '/' {
      assert x == j[|d|..] && y == j[|d|..];
    } else {
      assert x == j[|d| + 1..] && y == j[|d| + 1..];
    }
  }

  /** One pass of the loop of `scrape_article_range`: form the topic id,
      URL and output file of `articleId`, request the first page, scrape
      the topic and save its comments. */
  method ProcessArticle(site: Site, write: string -> bool, outputDir: string, category: string, articleId: int)
    returns (o: Outcome)
    ensures o == Outcomes(site, write, outputDir, category)(articleId)
  {
    var categoryOutputDir := PathJoin(outputDir, category);
    var articleNum := FormatPadded(articleId, 3);
    var topicId := category + "_" + articleNum;
    var url := "https://www.nhk.or.jp/minplus/" + category + "/comments/" + topicId + "/index.html";
    var outputFile := PathJoin(categoryOutputDir, topicId + ".json");
    assert url == TopicUrl(category, articleId);
    var response := site.firstResponse(url);
    if response.NetworkError? {
      return Error;
    } else if response.code == 404 {
      return Skip;
    } else if response.code != 200 {
      return Skip;
    }
    var comments := ScrapeAllComments(url, site.index(url), site.resolve, site.fetch);
    if |comments| == 0 {
      return Skip;
    }
    if !write(outputFile) {
      return Error;
    }
    return Success(outputFile, comments);
  }

  /** `scrape_article_range`: visit the ids in ascending order and count
      each as exactly one of success, skip or error. */
  method ScrapeArticleRange(site: Site, write: string -> bool, startId: int, endId: int, outputDir: string, category: string)
    returns (saved: seq<(string, seq<Comment>)>, success: nat, skip: nat, error: nat)
    ensures (success, skip, error) == Tally(Outcomes(site, write, outputDir, category), startId, endId)
    ensures saved == Saved(Outcomes(site, write, outputDir, category), startId, endId)
    ensures success + skip + error == if endId >= startId then endId - startId + 1 else 0
  {
    saved := [];
    success, skip, error := 0, 0, 0;
    if endId < startId {
      return;
    }
    var outcome := Outcomes(site, write, outputDir, category);
    var articleId := startId;
    while articleId <= endId
      invariant startId <= articleId <= endId + 1
      invariant (success, skip, error) == Tally(outcome, startId, articleId - 1)
      invariant saved == Saved(outcome, startId, articleId - 1)
    {
      var o := ProcessArticle(site, write, outputDir, category, articleId);
      TallyNext(outcome, startId, articleId);
      saved, success, skip, error := CountOutcome(o, saved, success, skip, error);
      articleId := articleId + 1;
    }
  }

  /** The counters' update after one id: its outcome is counted and, on
      success, its file joins the saved list. */
  method CountOutcome(o: Outcome, saved: seq<(string, seq<Comment>)>, success: nat, skip: nat, error: nat)
    returns (saved': seq<(string, seq<Comment>)>, success': nat, skip': nat, error': nat)
    ensures (success', skip', error') == TallyStep((success, skip, error), o)
    ensures saved' == if o.Success? then saved + [(o.file, o.comments)] else saved
  {
    saved', success', skip', error' := saved, success, skip, error;
    match o {
      case Success(file, comments) =>
        saved' := saved + [(file, comments)];
        success' := success + 1;
      case Skip =>
        skip' := skip + 1;
      case Error =>
        error' := error + 1;
    }
  }
}
