/** The front end's data loading (src/data/loadArticle.ts): the article
    list gathered from up to 300 files per category and sorted newest
    first, the detail of one article looked up by its id, and the parsing
    of Japanese dates that orders the list. `fetch` is an input: what
    requesting a path and reading its JSON gives. */
module LoadArticle {
  import opened Values
  import opened Text
  import opened Patterns
  import opened CommentScraper

  /** The categories tried when none is given, in this order. */
  const Categories: seq<string> := ["0026", "0014", "0011", "0006", "0029"]

  /** The highest article index tried in each category. */
  const MaxIndex: nat := 300

  /** The category of an id in the old `article_NNN` form. */
  const DefaultCategory: string := "0026"

  /** The JSON of a merged article file as the front end reads it. */
  datatype ArticleData = ArticleData(title: JVal, date: JVal, url: JVal, content: JVal, comments: Option<seq<Comment>>)

  /** What `fetch` and `response.json()` give for a path: a rejected
      promise (network failure or malformed JSON), a response that is not
      `ok`, or the data. */
  datatype Fetched = FetchFailed | NotOk | Ok(data: ArticleData)

  datatype ArticleListItem = ArticleListItem(id: string, title: JVal, date: JVal, url: JVal, comments: seq<Comment>)

  datatype Article = Article(id: string, title: JVal, date: JVal, url: JVal, content: JVal, comments: seq<Comment>)

  /** Why `loadArticleDetail` throws. */
  datatype LoadError = InvalidId | NotFound | FetchError

  datatype Detail = Loaded(article: Article) | Thrown(error: LoadError)

  // ---------------------------------------------------------------------
  // Ids and paths
  // ---------------------------------------------------------------------

  /** The path of an article file. */
  function ArticlePath(category: string, num: string): (r: string) {
    "/articles/" + category + "/article_" + num + ".json"
  }

  /** The id given to the list item loaded from index `i` of a category. */
  function ListId(category: string, i: nat): (r: string) {
    category + "_" + PadNat(i, 3)
  }

  /** `^\d{4}_\d{3}$` */
  predicate CategoryIdForm(id: string) {
    |id| == 8 && AllDigits(id[..4]) && id[4] == '_' && AllDigits(id[5..])
  }

  /** `^article_\d{3}$` */
  predicate LegacyIdForm(id: string) {
    |id| == 11 && id[..8] == "article_" && AllDigits(id[8..])
  }

  lemma DigitsHaveNoUnderscore(s: string)
    requires AllDigits(s)
    ensures '_' !in s
  {
    forall i | 0 <= i < |s| ensures s[i] != '_' {
      assert IsDigit(s[i]);
    }
  }

  /** The category and number of an article id: a `NNNN_NNN` id splits at
      its '_', an `article_NNN` id has the default category and the digits
      after the prefix, and any other id is rejected. */
  function ParseArticleId(id: string): (r: Option<(string, string)>)
    ensures r.None? <==> !CategoryIdForm(id) && !LegacyIdForm(id)
    ensures CategoryIdForm(id) ==> r == Some((id[..4], id[5..]))
    ensures LegacyIdForm(id) ==> r == Some((DefaultCategory, id[8..]))
  {
    if CategoryIdForm(id) then
      DigitsHaveNoUnderscore(id[..4]);
      DigitsHaveNoUnderscore(id[5..]);
      assert id == id[..4] + ['_'] + id[5..];
      SplitFirst(id[..4], id[5..], '_');
      SplitNone(id[5..], '_');
      var parts := Split(id, '_');
      Some((parts[0], parts[1]))
    else if LegacyIdForm(id) then
      assert id == "article_" + id[8..];
      ReplaceFirstPrefix("article_", id[8..], "");
      assert "" + id[8..] == id[8..];
      Some((DefaultCategory, ReplaceFirst(id, "article_", "")))
    else
      None
  }

  /** Every id the list gives a listed category's article opens the very
      file the list loaded it from. */
  lemma ListIdOpensSameFile(category: string, i: nat)
    requires |category| == 4 && AllDigits(category) && 1 <= i <= MaxIndex
    ensures ParseArticleId(ListId(category, i)) == Some((category, PadNat(i, 3)))
  {
    PadNatThree(i);
    var id := ListId(category, i);
    assert id[..4] == category && id[4] == '_' && id[5..] == PadNat(i, 3);
  }

  /** All the default categories have four digits. */
  lemma CategoriesHaveFourDigits()
    ensures forall c :: c in Categories ==> |c| == 4 && AllDigits(c)
  {
    forall c | c in Categories ensures |c| == 4 && AllDigits(c) {
      assert forall k :: 0 <= k < 4 ==> IsDigit(c[k]);
    }
  }

  // ---------------------------------------------------------------------
  // loadArticleDetail
  // ---------------------------------------------------------------------

  /** `loadArticleDetail`: an id of neither form throws, a failed or not-ok
      fetch throws, and otherwise the article carries the id it was asked
      for, the file's fields and its comments (none when absent). */
  function LoadArticleDetail(id: string, fetch: string -> Fetched): (r: Detail)
    ensures r == Thrown(InvalidId) <==> ParseArticleId(id).None?
    ensures r.Loaded? <==>
      ParseArticleId(id).Some? && fetch(ArticlePath(ParseArticleId(id).value.0, ParseArticleId(id).value.1)).Ok?
    ensures r.Loaded? ==>
      var d := fetch(ArticlePath(ParseArticleId(id).value.0, ParseArticleId(id).value.1)).data;
      && r.article.id == id
      && r.article.title == d.title && r.article.date == d.date && r.article.url == d.url && r.article.content == d.content
      && (d.comments.None? ==> r.article.comments == [])
      && (d.comments.Some? ==> r.article.comments == d.comments.value)
  {
    match ParseArticleId(id)
    case None => Thrown(InvalidId)
    case Some((category, num)) =>
      match fetch(ArticlePath(category, num))
      case FetchFailed => Thrown(FetchError)
      case NotOk => Thrown(NotFound)
      case Ok(d) => Loaded(Article(id, d.title, d.date, d.url, d.content, d.comments.GetOr([])))
  }

  // ---------------------------------------------------------------------
  // parseJapaneseDate
  // ---------------------------------------------------------------------

  /** A calendar date as `new Date(year, month, day)` is given it, the
      month counted from 0. */
  datatype Ymd = Ymd(year: int, month: int, day: int)

  /** `new Date(0)`, 1 January 1970. */
  const Epoch: Ymd := Ymd(1970, 0, 1)

  /** Strictly earlier, field by field. */
  predicate Earlier(a: Ymd, b: Ymd) {
    a.year < b.year || (a.year == b.year && (a.month < b.month || (a.month == b.month && a.day < b.day)))
  }

  /** `parseJapaneseDate`: the leftmost `(\d+)年(\d+)月(\d+)日` as (year,
      month - 1, day), or the epoch when the string holds none. */
  function ParseJapaneseDate(s: string): (r: Ymd) {
    var at := (k: nat) => JpDateAt(s, k);
    match Search(|s|, at, 0)
    case None => Epoch
    case Some((k, g)) =>
      assert JpDateFound(s, k, g.0, g.1, g.2);
      JpDateFoundDigits(s, k, g.0, g.1, g.2);
      Ymd(ParseNat(JpYear(s, k, g.0)), ParseNat(JpMonth(s, k, g.0, g.1)) - 1, ParseNat(JpDay(s, k, g.0, g.1, g.2)))
  }

  /** A string without any date text parses to the epoch. */
  lemma ParseJapaneseDateNone(s: string)
    requires forall k: nat, a: nat, b: nat, c: nat :: !JpDateFound(s, k, a, b, c)
    ensures ParseJapaneseDate(s) == Epoch
  {
    var at := (k: nat) => JpDateAt(s, k);
    var f := Search(|s|, at, 0);
    assert f.Some? ==> JpDateAt(s, f.value.0).Some?;
  }

  /** A date text `y年m月d日` at `k` with no date text starting earlier is
      what the string parses to. */
  lemma ParseJapaneseDateAt(s: string, k: nat, y: string, m: string, d: string)
    requires IsDigitString(y) && IsDigitString(m) && IsDigitString(d)
    requires Occurs(JpDateText(y, m, d), s, k)
    requires forall j: nat, a: nat, b: nat, c: nat :: j < k ==> !JpDateFound(s, j, a, b, c)
    ensures ParseJapaneseDate(s) == Ymd(ParseNat(y), ParseNat(m) - 1, ParseNat(d))
  {
    var at := (j: nat) => JpDateAt(s, j);
    JpDateAtComplete(s, k, y, m, d);
    JpPartsAt(s, k, y, m, d);
    assert k < |s| && at(k).Some?;
    var f := Search(|s|, at, 0);
    assert f.Some?;
    var g := f.value.1;
    assert at(f.value.0) == Some(g);
    assert JpDateFound(s, f.value.0, g.0, g.1, g.2);
    assert f.value.0 == k;
  }

  /** Every date the article scraper extracts parses to its own numbers,
      the month shifted to count from 0. */
  lemma ScrapedDateParses(t: string, b: nat, c: nat)
    requires 1 <= b <= 2 && 1 <= c <= 2 && DateShape(t, b, c)
    ensures ParseJapaneseDate(t) == Ymd(ParseNat(t[..4]), ParseNat(t[5..5 + b]) - 1, ParseNat(t[6 + b..6 + b + c]))
  {
    var y, m, d := t[..4], t[5..5 + b], t[6 + b..6 + b + c];
    assert t == JpDateText(y, m, d);
    assert Occurs(JpDateText(y, m, d), t, 0);
    ParseJapaneseDateAt(t, 0, y, m, d);
  }

  // ---------------------------------------------------------------------
  // Sorting the list
  // ---------------------------------------------------------------------

  /** The date an item sorts by. A null date counts as unparseable. */
  function DateOf(item: ArticleListItem): (r: Ymd) {
    match item.date
    case JNull => Epoch
    case JStr(s) => ParseJapaneseDate(s)
  }

  /** Newest first by `key`: no item is earlier than one after it. */
  predicate NewestFirstBy(xs: seq<ArticleListItem>, key: ArticleListItem -> Ymd) {
    forall i, j :: 0 <= i < j < |xs| ==> !Earlier(key(xs[i]), key(xs[j]))
  }

  /** Newest first by date. */
  predicate NewestFirst(xs: seq<ArticleListItem>) {
    forall i, j :: 0 <= i < j < |xs| ==> !Earlier(DateOf(xs[i]), DateOf(xs[j]))
  }

  /** Insert `x` after every item that is not earlier than it, so that
      items of equal key keep their order. */
  function InsertBy(xs: seq<ArticleListItem>, x: ArticleListItem, key: ArticleListItem -> Ymd): (r: seq<ArticleListItem>)
    requires NewestFirstBy(xs, key)
    ensures NewestFirstBy(r, key)
    ensures multiset(r) == multiset(xs) + multiset{x}
    decreases |xs|
  {
    if xs == [] then [x]
    else if Earlier(key(xs[0]), key(x)) then
      forall j | 0 <= j < |xs| ensures !Earlier(key(x), key(xs[j])) {
        NotEarlierChain(key(x), key(xs[0]), key(xs[j]));
      }
      PrependNewest(x, xs, key);
      [x] + xs
    else
      var rest := InsertBy(xs[1..], x, key);
      assert xs == [xs[0]] + xs[1..];
      forall j | 0 <= j < |rest| ensures !Earlier(key(xs[0]), key(rest[j])) {
        assert rest[j] in multiset(rest);
        if rest[j] != x {
          assert rest[j] in xs[1..];
        }
      }
      PrependNewest(xs[0], rest, key);
      [xs[0]] + rest
  }

  /** `c` no later than `b`, and `b` earlier than `a`: `a` is not earlier
      than `c`. */
  lemma NotEarlierChain(a: Ymd, b: Ymd, c: Ymd)
    requires Earlier(b, a) && !Earlier(b, c)
    ensures !Earlier(a, c)
  {
  }

  /** An item no earlier than any of a newest-first list goes in front. */
  lemma PrependNewest(x: ArticleListItem, xs: seq<ArticleListItem>, key: ArticleListItem -> Ymd)
    requires NewestFirstBy(xs, key)
    requires forall j :: 0 <= j < |xs| ==> !Earlier(key(x), key(xs[j]))
    ensures NewestFirstBy([x] + xs, key)
  {
    var r := [x] + xs;
    forall i, j | 0 <= i < j < |r| ensures !Earlier(key(r[i]), key(r[j])) {
      assert r[j] == xs[j - 1];
      if i > 0 {
        assert r[i] == xs[i - 1];
      }
    }
  }

  /** A stable insertion sort by `key`, newest first. */
  function SortBy(xs: seq<ArticleListItem>, key: ArticleListItem -> Ymd): (r: seq<ArticleListItem>)
    ensures NewestFirstBy(r, key)
    ensures multiset(r) == multiset(xs)
    decreases |xs|
  {
    if xs == [] then []
    else
      assert xs == xs[..|xs| - 1] + [xs[|xs| - 1]];
      InsertBy(SortBy(xs[..|xs| - 1], key), xs[|xs| - 1], key)
  }

  /** `articles.sort(...)` with the comparator `dateB - dateA`, a stable
      sort: newest first, and the same items. */
  function SortByDate(xs: seq<ArticleListItem>): (r: seq<ArticleListItem>)
    ensures NewestFirst(r)
    ensures multiset(r) == multiset(xs)
  {
    var r := SortBy(xs, DateOf);
    assert forall i, j :: 0 <= i < j < |r| ==> !Earlier(DateOf(r[i]), DateOf(r[j])) by {
      forall i, j | 0 <= i < j < |r| ensures !Earlier(DateOf(r[i]), DateOf(r[j])) {
        assert !Earlier(DateOf(r[i]), DateOf(r[j]));
      }
    }
    r
  }

  /** After sorting, an item whose date does not parse comes after every
      item dated later than 1 January 1970. */
  lemma UnparseableLast(xs: seq<ArticleListItem>, i: nat, j: nat)
    requires i < |SortByDate(xs)| && j < |SortByDate(xs)|
    requires DateOf(SortByDate(xs)[i]) == Epoch && Earlier(Epoch, DateOf(SortByDate(xs)[j]))
    ensures j < i
  {
  }

  /** The sort as written: the comparator calls `dateStr.match` on every
      item it compares, which throws on a null date; with two or more items
      every item is compared, the throw escapes the sort, and the list
      loader returns an empty list. */
  function SortAsWritten(xs: seq<ArticleListItem>): (r: seq<ArticleListItem>)
    ensures r == [] || multiset(r) == multiset(xs)
    ensures r == [] <==> xs == [] || (|xs| >= 2 && exists i :: 0 <= i < |xs| && xs[i].date.JNull?)
    ensures r != [] ==> NewestFirst(r)
  {
    if |xs| >= 2 && exists i :: 0 <= i < |xs| && xs[i].date.JNull? then []
    else SortByDate(xs)
  }

  /** Two loaded articles, one of them without a date, make the list as
      written come out empty, where the corrected sort keeps both. */
  lemma NullDateEmptiesList(a: ArticleListItem, b: ArticleListItem)
    requires a.date.JNull?
    ensures SortAsWritten([a, b]) == []
    ensures |SortByDate([a, b])| == 2
  {
    assert [a, b][0].date.JNull?;
    assert |multiset(SortByDate([a, b]))| == 2;
  }

  // ---------------------------------------------------------------------
  // loadArticleList
  // ---------------------------------------------------------------------

  /** A given non-empty category alone, otherwise every default category. */
  function TargetCategories(category: Option<string>): (r: seq<string>)
    ensures Truthy(category) ==> r == [category.value]
    ensures !Truthy(category) ==> r == Categories
  {
    if Truthy(category) then [category.value] else Categories
  }

  /** The list item for index `i` of a category. */
  function ItemOf(category: string, i: nat, d: ArticleData): (r: ArticleListItem) {
    ArticleListItem(ListId(category, i), d.title, d.date, d.url, d.comments.GetOr([]))
  }

  /** The item of index `i` of a category, if its file loads. */
  function ItemAt(category: string, fetch: string -> Fetched, i: nat): (r: seq<ArticleListItem>)
    ensures |r| <= 1
    ensures |r| == 1 <==> fetch(ArticlePath(category, PadNat(i, 3))).Ok?
  {
    match fetch(ArticlePath(category, PadNat(i, 3)))
    case Ok(d) => [ItemOf(category, i, d)]
    case _ => []
  }

  /** The items of indexes `1..n` of a category whose file loads, in
      index order. */
  function CategoryItems(category: string, fetch: string -> Fetched, n: nat): (r: seq<ArticleListItem>)
    ensures |r| <= n
    decreases n
  {
    if n == 0 then [] else CategoryItems(category, fetch, n - 1) + ItemAt(category, fetch, n)
  }

  /** The items of all the categories, category by category. */
  function Collected(categories: seq<string>, fetch: string -> Fetched, last: nat): (r: seq<ArticleListItem>)
    decreases |categories|
  {
    if categories == [] then []
    else Collected(categories[..|categories| - 1], fetch, last) + CategoryItems(categories[|categories| - 1], fetch, last)
  }

  lemma CollectedStep(categories: seq<string>, c: nat, fetch: string -> Fetched, last: nat)
    requires c < |categories|
    ensures Collected(categories[..c + 1], fetch, last) == Collected(categories[..c], fetch, last) + CategoryItems(categories[c], fetch, last)
  {
    assert categories[..c + 1][..c] == categories[..c];
  }

  /** Every item of a category comes from a file of it that loaded, under
      the id built from that index. */
  lemma {:induction false} CategoryItemFrom(category: string, fetch: string -> Fetched, n: nat, k: nat) returns (i: nat)
    requires k < |CategoryItems(category, fetch, n)|
    ensures 1 <= i <= n && fetch(ArticlePath(category, PadNat(i, 3))).Ok?
    ensures CategoryItems(category, fetch, n)[k] == ItemOf(category, i, fetch(ArticlePath(category, PadNat(i, 3))).data)
    decreases n
  {
    var prev, cur := CategoryItems(category, fetch, n - 1), ItemAt(category, fetch, n);
    assert CategoryItems(category, fetch, n) == prev + cur;
    if k < |prev| {
      assert CategoryItems(category, fetch, n)[k] == prev[k];
      i := CategoryItemFrom(category, fetch, n - 1, k);
    } else {
      assert CategoryItems(category, fetch, n)[k] == cur[0];
      i := n;
    }
  }

  /** Every collected item has the id `{category}_{i padded to 3}` of a
      visited category and an index in 1..300 whose file loaded. */
  lemma {:induction false} CollectedFrom(categories: seq<string>, fetch: string -> Fetched, last: nat, k: nat) returns (category: string, i: nat)
    requires k < |Collected(categories, fetch, last)|
    ensures category in categories && 1 <= i <= last && fetch(ArticlePath(category, PadNat(i, 3))).Ok?
    ensures Collected(categories, fetch, last)[k] == ItemOf(category, i, fetch(ArticlePath(category, PadNat(i, 3))).data)
    decreases |categories|
  {
    var init := categories[..|categories| - 1];
    var prev, cur := Collected(init, fetch, last), CategoryItems(categories[|categories| - 1], fetch, last);
    assert Collected(categories, fetch, last) == prev + cur;
    if k < |prev| {
      assert Collected(categories, fetch, last)[k] == prev[k];
      category, i := CollectedFrom(init, fetch, last, k);
    } else {
      assert Collected(categories, fetch, last)[k] == cur[k - |prev|];
      category := categories[|categories| - 1];
      i := CategoryItemFrom(category, fetch, last, k - |prev|);
    }
  }

  /** Every file of the category with an index in `1..n` that loads
      gives an item. */
  lemma {:induction false} CategoryItemsHas(category: string, fetch: string -> Fetched, n: nat, i: nat)
    requires 1 <= i <= n && fetch(ArticlePath(category, PadNat(i, 3))).Ok?
    ensures ItemOf(category, i, fetch(ArticlePath(category, PadNat(i, 3))).data) in CategoryItems(category, fetch, n)
    decreases n
  {
    if i < n {
      CategoryItemsHas(category, fetch, n - 1, i);
    }
  }

  /** Every item of a visited category is an item of the collected list. */
  lemma {:induction false} CollectedHas(categories: seq<string>, fetch: string -> Fetched, last: nat, j: nat, x: ArticleListItem)
    requires j < |categories| && x in CategoryItems(categories[j], fetch, last)
    ensures x in Collected(categories, fetch, last)
    decreases |categories|
  {
    var init := categories[..|categories| - 1];
    assert Collected(categories, fetch, last) == Collected(init, fetch, last) + CategoryItems(categories[|categories| - 1], fetch, last);
    if j < |init| {
      assert init[j] == categories[j];
      CollectedHas(init, fetch, last, j, x);
    }
  }

  /** The list loader as written: once two or more articles are collected
      from the target categories and one of the files that loaded has a
      null date, the list comes out empty. */
  lemma NullDateEmptiesLoadedList(targets: seq<string>, fetch: string -> Fetched, j: nat, i: nat)
    requires j < |targets| && 1 <= i <= MaxIndex
    requires fetch(ArticlePath(targets[j], PadNat(i, 3))).Ok? && fetch(ArticlePath(targets[j], PadNat(i, 3))).data.date.JNull?
    requires |Collected(targets, fetch, MaxIndex)| >= 2
    ensures SortAsWritten(Collected(targets, fetch, MaxIndex)) == []
  {
    var x := ItemOf(targets[j], i, fetch(ArticlePath(targets[j], PadNat(i, 3))).data);
    CategoryItemsHas(targets[j], fetch, MaxIndex, i);
    CollectedHas(targets, fetch, MaxIndex, j, x);
    NullDateEmpties(Collected(targets, fetch, MaxIndex), x);
  }

  /** The sort as written empties any list of two or more items one of
      which has a null date. */
  lemma NullDateEmpties(xs: seq<ArticleListItem>, x: ArticleListItem)
    requires |xs| >= 2 && x in xs && x.date.JNull?
    ensures SortAsWritten(xs) == []
  {
    var k :| 0 <= k < |xs| && xs[k] == x;
    assert xs[k].date.JNull?;
  }

  /** Opening a listed item of a category with a four-digit name shows
      the same title, date, url and comments the list has for it. */
  lemma ListedItemOpens(categories: seq<string>, fetch: string -> Fetched, last: nat, k: nat)
    requires forall c :: c in categories ==> |c| == 4 && AllDigits(c)
    requires last <= MaxIndex && k < |Collected(categories, fetch, last)|
    ensures OpensAs(Collected(categories, fetch, last)[k], fetch)
  {
    var category, i := CollectedFrom(categories, fetch, last, k);
    ItemOpens(category, fetch, i);
  }

  /** Opening `item` in the detail loader succeeds and shows the id,
      title, date, url and comments the list has for it. */
  predicate OpensAs(item: ArticleListItem, fetch: string -> Fetched) {
    var r := LoadArticleDetail(item.id, fetch);
    && r.Loaded? && r.article.id == item.id
    && r.article.title == item.title && r.article.date == item.date && r.article.url == item.url
    && r.article.comments == item.comments
  }

  /** Every item the list loader collects for the default categories
      opens in the detail loader with the same title, date, url and
      comments. */
  lemma DefaultItemOpens(fetch: string -> Fetched, k: nat)
    requires k < |Collected(Categories, fetch, MaxIndex)|
    ensures OpensAs(Collected(Categories, fetch, MaxIndex)[k], fetch)
  {
    CategoriesHaveFourDigits();
    ListedItemOpens(Categories, fetch, MaxIndex, k);
  }

  /** The item of index `i` of a category with a four-digit name opens
      with the same title, date, url and comments. */
  lemma ItemOpens(category: string, fetch: string -> Fetched, i: nat)
    requires |category| == 4 && AllDigits(category)
    requires 1 <= i <= MaxIndex && fetch(ArticlePath(category, PadNat(i, 3))).Ok?
    ensures OpensAs(ItemOf(category, i, fetch(ArticlePath(category, PadNat(i, 3))).data), fetch)
  {
    ListIdOpensSameFile(category, i);
    var path := ArticlePath(category, PadNat(i, 3));
    var r := LoadArticleDetail(ListId(category, i), fetch);
    assert ArticlePath(ParseArticleId(ListId(category, i)).value.0, ParseArticleId(ListId(category, i)).value.1) == path;
    assert r.Loaded?;
  }

  /** The inner loop of `loadArticleList`: indexes 1..last of one
      category, keeping each item whose file loads. */
  method LoadCategory(cat: string, fetch: string -> Fetched, last: nat) returns (items: seq<ArticleListItem>)
    ensures items == CategoryItems(cat, fetch, last)
  {
    items := [];
    var i := 1;
    while i <= last
      invariant 1 <= i <= last + 1
      invariant items == CategoryItems(cat, fetch, i - 1)
    {
      var response := fetch(ArticlePath(cat, PadNat(i, 3)));
      if response.Ok? {
        items := items + [ItemOf(cat, i, response.data)];
      }
      i := i + 1;
    }
  }

  /** The outer loop of `loadArticleList`: the categories in order, the
      items of each appended in index order. */
  method LoadCategories(targets: seq<string>, fetch: string -> Fetched, last: nat) returns (articles: seq<ArticleListItem>)
    ensures articles == Collected(targets, fetch, last)
  {
    articles := [];
    var c := 0;
    while c < |targets|
      invariant 0 <= c <= |targets|
      invariant articles == Collected(targets[..c], fetch, last)
    {
      var items := LoadCategory(targets[c], fetch, last);
      CollectedStep(targets, c, fetch, last);
      articles := articles + items;
      c := c + 1;
    }
    assert targets[..c] == targets;
  }

  /** `loadArticleList`: try indexes 1..300 of each target category in
      order, keep every item whose file loads, then sort newest first. */
  method LoadArticleList(category: Option<string>, fetch: string -> Fetched) returns (articles: seq<ArticleListItem>)
    ensures articles == SortByDate(Collected(TargetCategories(category), fetch, MaxIndex))
    ensures NewestFirst(articles)
    ensures multiset(articles) == multiset(Collected(TargetCategories(category), fetch, MaxIndex))
  {
    articles := LoadCategories(TargetCategories(category), fetch, MaxIndex);
    articles := SortByDate(articles);
  }
}
