/** `merge_article_with_comments` of merge_articles.py: every article file
    `{category}_{num}.json` of a category is paired with the comment file of
    the same name, merged into one record and written as
    `article_{num}.json`, while a success and an error counter are kept.
    The file system is an input: the directory listing, what each file
    holds when read, and whether a write succeeds. */
module MergeArticles {
  import opened Values
  import opened Text
  import opened CommentScraper
  import opened ArticleScraper

  /** What `json.load` makes of an article file. */
  datatype ArticleFile =
    | ArticleUnreadable                    // missing, not JSON, a directory, ...
    | NotAnObject                          // JSON, but not an object: `.get` raises
    | ArticleJson(fields: map<string, JVal>)

  /** What the lookup of a comment file finds. */
  datatype CommentFile =
    | NoCommentFile                        // `os.path.exists` is false
    | CommentsUnreadable                   // exists, but `json.load` raises
    | CommentJson(comments: seq<Comment>)

  /** The file system as the merge sees it. */
  datatype Disk = Disk(
    entries: string -> seq<string>,        // the names in a directory
    article: string -> ArticleFile,
    comments: string -> CommentFile,
    write: string -> bool)                 // whether writing a path succeeds

  /** The merged record, with exactly these five keys. */
  datatype MergedRecord = MergedRecord(title: JVal, date: JVal, url: JVal, content: JVal, comments: seq<Comment>)

  /** How one article file ends: merged and counted as a success; written
      but counted as an error (the summary print after the write raised);
      or an error before anything was written. */
  datatype MergeOutcome =
    | Merged(file: string, record: MergedRecord)
    | WrittenThenFailed(file: string, record: MergedRecord)
    | Failed

  // ---------------------------------------------------------------------
  // File names
  // ---------------------------------------------------------------------

  /** The glob pattern `{category}_*.json`: the category and '_' in front,
      ".json" at the end, anything (possibly nothing) in between. */
  predicate GlobMatch(name: string, category: string) {
    && |name| >= |category| + 6
    && name[..|category| + 1] == category + "_"
    && name[|name| - 5..] == ".json"
  }

  /** The names of a directory the glob yields, in listing order. */
  function Matching(names: seq<string>, category: string): (r: seq<string>)
    ensures forall n :: n in r <==> n in names && GlobMatch(n, category)
    decreases |names|
  {
    if names == [] then []
    else
      var rest := Matching(names[..|names| - 1], category);
      var n := names[|names| - 1];
      assert forall m :: m in names <==> m in names[..|names| - 1] || m == n by {
        assert names == names[..|names| - 1] + [n];
      }
      if GlobMatch(n, category) then rest + [n] else rest
  }

  /** The article files of a category in the order they are processed:
      every matching name once, ascending. */
  function ArticleFiles(disk: Disk, articlesDir: string, category: string): (r: seq<string>)
    ensures StrictlySorted(r)
    ensures forall n :: n in r <==> n in disk.entries(PathJoin(articlesDir, category)) && GlobMatch(n, category)
  {
    SortedSet(Matching(disk.entries(PathJoin(articlesDir, category)), category))
  }

  /** The source sorts the full paths; joined onto one directory, names
      that agree in their first character (as all glob matches do) sort as
      the names themselves do. */
  lemma PathOrder(dir: string, a: string, b: string)
    requires a != [] && b != [] && a[0] == b[0]
    ensures LexLess(PathJoin(dir, a), PathJoin(dir, b)) <==> LexLess(a, b)
  {
    if a[0] == '/' {
    } else if dir == [] || dir[|dir| - 1] == '/' {
      LexCommonPrefix(dir, a, b);
    } else {
      assert dir + "/" + a == (dir + "/") + a && dir + "/" + b == (dir + "/") + b;
      LexCommonPrefix(dir + "/", a, b);
    }
  }

  /** The article number: the file name with every `{category}_` and then
      every ".json" removed. */
  function ArticleNum(name: string, category: string): string {
    ReplaceAll(ReplaceAll(name, category + "_", ""), ".json", "")
  }

  /** The name of the comment file for an article number. */
  function CommentName(category: string, num: string): string {
    category + "_" + num + ".json"
  }

  /** The name of the merged output file for an article number. */
  function OutputName(num: string): string {
    "article_" + num + ".json"
  }

  /** A name `{category}_{num}.json` whose number holds no '_' and no '.'
      gives back that number, so its comment file has the article file's
      own name. */
  lemma ArticleNumOf(category: string, num: string)
    requires forall i :: 0 <= i < |num| ==> num[i] != '_' && num[i] != '.'
    ensures ArticleNum(CommentName(category, num), category) == num
    ensures CommentName(category, ArticleNum(CommentName(category, num), category)) == CommentName(category, num)
  {
    DropCategory(category, num);
    DropJson(num);
  }

  /** Removing `{category}_` from `{category}_{num}.json` leaves
      `{num}.json` when `num` holds no '_'. */
  lemma DropCategory(category: string, num: string)
    requires forall i :: 0 <= i < |num| ==> num[i] != '_'
    ensures ReplaceAll(CommentName(category, num), category + "_", "") == num + ".json"
  {
    var pre, rest := category + "_", num + ".json";
    assert CommentName(category, num) == pre + rest;
    assert forall j :: 0 <= j < |rest| ==> rest[j] != '_' by {
      forall j | 0 <= j < |rest| ensures rest[j] != '_' {
        if j < |num| {
          assert rest[j] == num[j];
        } else {
          assert rest[j] == ".json"[j - |num|];
        }
      }
    }
    forall k | 0 <= k <= |rest| ensures !Occurs(pre, rest, k) {
      if k + |pre| <= |rest| {
        assert rest[k..k + |pre|][|category|] == rest[k + |category|];
      }
    }
    ReplaceAbsent(rest, pre, "");
    ReplaceAllPrefix(pre, rest, "");
    assert "" + rest == rest;
  }

  /** Removing ".json" from `{num}.json` leaves `num` when `num` holds
      no '.'. */
  lemma DropJson(num: string)
    requires forall i :: 0 <= i < |num| ==> num[i] != '.'
    ensures ReplaceAll(num + ".json", ".json", "") == num
  {
    forall k | 0 <= k < |num| ensures !Occurs(".json", num + ".json", k) {
      assert (num + ".json")[k] == num[k];
    }
    ReplaceTrailing(num, ".json", "");
    assert num + "" == num;
  }

  /** Every name of the form `{category}_{num}.json` is matched by the glob,
      and every match has that form for the part between. */
  lemma GlobMatchShape(name: string, category: string)
    ensures GlobMatch(name, category) <==>
      |name| >= |category| + 6 && name == CommentName(category, name[|category| + 1..|name| - 5])
  {
    if |name| >= |category| + 6 {
      var mid := name[|category| + 1..|name| - 5];
      if GlobMatch(name, category) {
        assert name == name[..|category| + 1] + mid + name[|name| - 5..];
      }
      if name == CommentName(category, mid) {
        assert name[..|category| + 1] == (category + "_" + mid + ".json")[..|category| + 1];
      }
    }
  }

  // ---------------------------------------------------------------------
  // The merged record
  // ---------------------------------------------------------------------

  /** `article_data.get(key, "")`. */
  function Get(fields: map<string, JVal>, key: string): JVal {
    if key in fields then fields[key] else JStr("")
  }

  /** The record `merged_data`. */
  function MergeRecord(fields: map<string, JVal>, comments: seq<Comment>): MergedRecord {
    MergedRecord(Get(fields, "title"), Get(fields, "date"), Get(fields, "url"), Get(fields, "content"), comments)
  }

  /** Only the four keys matter: keys beyond them are dropped, and a
      missing key reads as the empty string. */
  lemma MergeKeepsFourKeys(f: map<string, JVal>, g: map<string, JVal>, comments: seq<Comment>)
    requires forall k :: k in ["title", "date", "url", "content"] ==> (k in f <==> k in g) && (k in f ==> f[k] == g[k])
    ensures MergeRecord(f, comments) == MergeRecord(g, comments)
    ensures "title" !in f ==> MergeRecord(f, comments).title == JStr("")
    ensures "date" !in f ==> MergeRecord(f, comments).date == JStr("")
    ensures "url" !in f ==> MergeRecord(f, comments).url == JStr("")
    ensures "content" !in f ==> MergeRecord(f, comments).content == JStr("")
  {
    assert "title" in ["title", "date", "url", "content"];
    assert "date" in ["title", "date", "url", "content"];
    assert "url" in ["title", "date", "url", "content"];
    assert "content" in ["title", "date", "url", "content"];
  }

  /** The summary print after the write slices the title and takes the
      length of the content; either raises when that value is null. */
  predicate PrintFails(r: MergedRecord) {
    r.title.JNull? || r.content.JNull?
  }

  /** One article file, in the order the loop body goes: read the article,
      look up and read the comment file, build the record, write it, print
      the summary. */
  function MergeOne(disk: Disk, articlesDir: string, commentsDir: string, outputDir: string, category: string, name: string): (o: MergeOutcome)
    ensures o.Merged? ==> !PrintFails(o.record)
    ensures !o.Failed? ==>
      && disk.article(PathJoin(PathJoin(articlesDir, category), name)).ArticleJson?
      && o.file == PathJoin(PathJoin(outputDir, category), OutputName(ArticleNum(name, category)))
      && disk.write(o.file)
      && o.record == MergeRecord(disk.article(PathJoin(PathJoin(articlesDir, category), name)).fields,
                                 o.record.comments)
    ensures var article := disk.article(PathJoin(PathJoin(articlesDir, category), name));
      var commentFile := disk.comments(PathJoin(PathJoin(commentsDir, category), CommentName(category, ArticleNum(name, category))));
      && (o.Failed? <==>
            || article.ArticleUnreadable? || article.NotAnObject? || commentFile.CommentsUnreadable?
            || !disk.write(PathJoin(PathJoin(outputDir, category), OutputName(ArticleNum(name, category)))))
      && (!o.Failed? && commentFile.CommentJson? ==> o.record.comments == commentFile.comments)
      && (!o.Failed? && commentFile.NoCommentFile? ==> o.record.comments == [])
    ensures !o.Failed? ==> (o.Merged? <==> !PrintFails(o.record))
  {
    var num := ArticleNum(name, category);
    var article := disk.article(PathJoin(PathJoin(articlesDir, category), name));
    var commentFile := disk.comments(PathJoin(PathJoin(commentsDir, category), CommentName(category, num)));
    if article.ArticleUnreadable? || commentFile.CommentsUnreadable? || article.NotAnObject? then Failed
    else
      var comments := if commentFile.CommentJson? then commentFile.comments else [];
      var record := MergeRecord(article.fields, comments);
      var file := PathJoin(PathJoin(outputDir, category), OutputName(num));
      if !disk.write(file) then Failed
      else if PrintFails(record) then WrittenThenFailed(file, record)
      else Merged(file, record)
  }

  /** The JSON object the article scraper saves for a record. */
  function ScrapedJson(r: ArticleRecord): map<string, JVal> {
    map["title" := JStr(r.title), "date" := (if r.date.Some? then JStr(r.date.value) else JNull),
        "url" := JStr(r.url), "content" := JStr(r.content)]
  }

  /** A file the article scraper saved merges without error whenever its
      comment file is absent or readable and the write succeeds, and the
      merged record carries the scraped title, date, url and content. */
  lemma ScrapedArticleMerges(disk: Disk, articlesDir: string, commentsDir: string, outputDir: string, category: string, name: string, r: ArticleRecord)
    requires disk.article(PathJoin(PathJoin(articlesDir, category), name)) == ArticleJson(ScrapedJson(r))
    requires !disk.comments(PathJoin(PathJoin(commentsDir, category), CommentName(category, ArticleNum(name, category)))).CommentsUnreadable?
    requires disk.write(PathJoin(PathJoin(outputDir, category), OutputName(ArticleNum(name, category))))
    ensures MergeOne(disk, articlesDir, commentsDir, outputDir, category, name).Merged?
    ensures var m := MergeOne(disk, articlesDir, commentsDir, outputDir, category, name).record;
      && m.title == JStr(r.title) && m.url == JStr(r.url) && m.content == JStr(r.content)
      && (m.date.JStr? <==> r.date.Some?) && (r.date.Some? ==> m.date.str == r.date.value)
  {
  }

  // ---------------------------------------------------------------------
  // The loop
  // ---------------------------------------------------------------------

  /** The number of merged (success) outcomes. */
  function Successes(os: seq<MergeOutcome>): (n: nat)
    ensures n <= |os|
    decreases |os|
  {
    if os == [] then 0
    else Successes(os[..|os| - 1]) + (if os[|os| - 1].Merged? then 1 else 0)
  }

  /** The number of outcomes counted as errors. */
  function Errors(os: seq<MergeOutcome>): (n: nat)
    ensures Successes(os) + n == |os|
    decreases |os|
  {
    if os == [] then 0
    else Errors(os[..|os| - 1]) + (if os[|os| - 1].Merged? then 0 else 1)
  }

  /** The files written, with what was written to each, in order. */
  function Written(os: seq<MergeOutcome>): (w: seq<(string, MergedRecord)>)
    ensures |w| <= |os|
    decreases |os|
  {
    if os == [] then []
    else
      var o := os[|os| - 1];
      Written(os[..|os| - 1]) + (if o.Failed? then [] else [(o.file, o.record)])
  }

  /** Every written entry comes from an outcome that wrote it. */
  lemma {:induction false} WrittenFrom(os: seq<MergeOutcome>, i: nat) returns (k: nat)
    requires i < |Written(os)|
    ensures k < |os| && !os[k].Failed? && Written(os)[i] == (os[k].file, os[k].record)
    decreases |os|
  {
    var prev := os[..|os| - 1];
    if i < |Written(prev)| {
      k := WrittenFrom(prev, i);
      assert os[k] == prev[k];
    } else {
      k := |os| - 1;
    }
  }

  /** A file counts as a success exactly when it was written and its
      summary printed, so every success wrote a file. */
  lemma {:induction false} SuccessesWritten(os: seq<MergeOutcome>)
    ensures Successes(os) <= |Written(os)|
    ensures forall k :: 0 <= k < |os| && os[k].Merged? ==> (os[k].file, os[k].record) in Written(os)
    decreases |os|
  {
    if os != [] {
      var prev := os[..|os| - 1];
      SuccessesWritten(prev);
      forall k | 0 <= k < |os| && os[k].Merged? ensures (os[k].file, os[k].record) in Written(os) {
        if k < |prev| {
          assert os[k] == prev[k];
        }
      }
    }
  }

  /** Counting one more outcome. */
  lemma CountsStep(os: seq<MergeOutcome>, i: nat)
    requires i < |os|
    ensures Successes(os[..i + 1]) == Successes(os[..i]) + (if os[i].Merged? then 1 else 0)
    ensures Errors(os[..i + 1]) == Errors(os[..i]) + (if os[i].Merged? then 0 else 1)
    ensures Written(os[..i + 1]) == Written(os[..i]) + (if os[i].Failed? then [] else [(os[i].file, os[i].record)])
  {
    assert os[..i + 1][..i] == os[..i];
  }

  /** The outcomes of a list of article files. */
  function MergeAll(disk: Disk, articlesDir: string, commentsDir: string, outputDir: string, category: string, names: seq<string>): (os: seq<MergeOutcome>)
    ensures |os| == |names|
    ensures forall i :: 0 <= i < |names| ==> os[i] == MergeOne(disk, articlesDir, commentsDir, outputDir, category, names[i])
  {
    seq(|names|, i requires 0 <= i < |names| => MergeOne(disk, articlesDir, commentsDir, outputDir, category, names[i]))
  }

  /** The loop body for one article file. */
  method MergeFile(disk: Disk, articlesDir: string, commentsDir: string, outputDir: string, category: string, name: string)
    returns (o: MergeOutcome)
    ensures o == MergeOne(disk, articlesDir, commentsDir, outputDir, category, name)
  {
    ghost var expected := MergeOne(disk, articlesDir, commentsDir, outputDir, category, name);
    var articleFile := PathJoin(PathJoin(articlesDir, category), name);
    var num := ArticleNum(name, category);
    var article := disk.article(articleFile);
    if article.ArticleUnreadable? {
      return Failed;
    }
    var commentFile := PathJoin(PathJoin(commentsDir, category), CommentName(category, num));
    var comments: seq<Comment>;
    match disk.comments(commentFile) {
      case NoCommentFile => comments := [];
      case CommentsUnreadable => return Failed;
      case CommentJson(cs) => comments := cs;
    }
    if article.NotAnObject? {
      return Failed;
    }
    var record := MergeRecord(article.fields, comments);
    var outputFile := PathJoin(PathJoin(outputDir, category), OutputName(num));
    if !disk.write(outputFile) {
      return Failed;
    }
    if PrintFails(record) {
      return WrittenThenFailed(outputFile, record);
    }
    return Merged(outputFile, record);
  }

  /** `merge_article_with_comments`: process the category's article files
      in ascending order; every file is counted once, as a success or as an
      error. */
  method MergeArticleWithComments(disk: Disk, articlesDir: string, commentsDir: string, outputDir: string, category: string)
    returns (written: seq<(string, MergedRecord)>, success: nat, error: nat)
    ensures var os := MergeAll(disk, articlesDir, commentsDir, outputDir, category, ArticleFiles(disk, articlesDir, category));
      success == Successes(os) && error == Errors(os) && written == Written(os)
    ensures success + error == |ArticleFiles(disk, articlesDir, category)|
  {
    var articleFiles := ArticleFiles(disk, articlesDir, category);
    ghost var os := MergeAll(disk, articlesDir, commentsDir, outputDir, category, articleFiles);
    written, success, error := [], 0, 0;
    var i := 0;
    while i < |articleFiles|
      invariant 0 <= i <= |articleFiles|
      invariant success == Successes(os[..i]) && error == Errors(os[..i]) && written == Written(os[..i])
    {
      var o := MergeFile(disk, articlesDir, commentsDir, outputDir, category, articleFiles[i]);
      CountsStep(os, i);
      written, success, error := CountMerge(o, written, success, error);
      i := i + 1;
    }
    assert os[..i] == os;
  }

  /** The counters' update after one file: a merge counts as a success,
      anything else as an error, and whatever was written joins the list. */
  method CountMerge(o: MergeOutcome, written: seq<(string, MergedRecord)>, success: nat, error: nat)
    returns (written': seq<(string, MergedRecord)>, success': nat, error': nat)
    ensures written' == written + (if o.Failed? then [] else [(o.file, o.record)])
    ensures success' == success + (if o.Merged? then 1 else 0)
    ensures error' == error + (if o.Merged? then 0 else 1)
  {
    written', success', error' := written, success, error;
    if !o.Failed? {
      written' := written + [(o.file, o.record)];
    }
    if o.Merged? {
      success' := success + 1;
    } else {
      error' := error + 1;
    }
  }
}
