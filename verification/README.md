# NHK みんなでプラス scraper and viewer, modelled in Dafny

The repository scrapes articles and reader comments from the NHK
"みんなでプラス" site and shows them in a small React front end. This
project models its core:

- the comment scraper: parsing one comment, the age/gender meta line, the
  total comment count heading, the pagination URLs (counted and fallback),
  collecting the comments of every page, and the type statistics;
- the article scraper: title, date and body extraction and the record it
  returns;
- the batch scraper: the loop over a range of article ids with its
  success/skip/error counters;
- the merge script: the glob of article files, the article number, the
  merged record and the loop with its counters;
- the front end's article loader: the list loader over categories and
  indexes, the date sort, the detail loader and its id parsing, and
  `parseJapaneseDate`;
- the pure helpers of the comment list view.

Files:

- `Values.dfy` holds `Option`, truthiness of optional strings and JSON
  string-or-null values.
- `Text.dfy` holds the string operations the code relies on: strip,
  digits, zero padding, `replace`, `split`/`join`, string order, the
  sorted set, `os.path.join` and a generic leftmost search.
- `Patterns.dfy` models each regular expression as a matcher at one
  position. It proves the matcher sound (what it finds matches) and
  complete (any match at that position is what it finds). The leftmost
  search then gives `re.search` / `String.match`.
- The remaining files have one module per source file.

Imperative loops of the source are `method`s with `while` loops. Each is
proved equal to a specification function, and the properties the source
promises are lemmas about that function. The network, the HTML parser,
the file system and the clock are not modelled. A fetched page is a record
of the (already stripped) texts the code reads from it. Fetching, URL
resolution (`urljoin`) and file writes are function parameters.

## Model

| member | source | states |
|---|---|---|
| Text.Strip | scraper/articles/article_scraper.py:171 | `str.strip()` is the text between a whitespace-only prefix and a whitespace-only suffix; it is empty exactly when the text is all whitespace, and otherwise starts and ends with a non-space |
| Text.StripOfStripped | scraper/articles/article_scraper.py:154 | stripping an already stripped text (what `get_text(strip=True)` yields) changes nothing |
| Text.StripSlice | scraper/articles/article_scraper.py:92 | the stripped text is a contiguous piece of the original |
| Text.DigitRunDigits | scraper/comments_scraper/nhk_comment_scraper.py:120 | every character of the maximal run of `\d` at a position is a digit |
| Text.NatToString | src/data/loadArticle.ts:16 | `i.toString()` is a digit string that reads back as `i`, with no leading zero unless `i` is 0 |
| Text.ZeroPad | src/data/loadArticle.ts:16 | `padStart(width, "0")` has length max(width, length), ends with the text and is zeros in front |
| Text.LeadingZerosIgnored | src/data/loadArticle.ts:16 | leading zeros do not change the number a digit string reads as |
| Text.PadNat | src/data/loadArticle.ts:16 | the padded numeral is a digit string at least `width` long |
| Text.PadNatValue | src/data/loadArticle.ts:16 | the padded numeral reads back as the number (padding round-trip) |
| Text.PadNatThree | src/data/loadArticle.ts:15-16 | an index up to 300 pads to exactly three digits |
| Text.FormatPadded | scraper/comments_scraper/batch_scraper.py:40 | `f"{n:03d}"` is a digit string for n >= 0, a '-' and a digit string for n < 0, and at least `width` long |
| Text.FormatPaddedValue | scraper/comments_scraper/batch_scraper.py:40 | the formatted numeral reads back as the id (its digits as -n when negative) |
| Text.Search | scraper/comments_scraper/nhk_comment_scraper.py:32 | the leftmost matching position in a range: it matches, and no earlier position does |
| Text.FindFirst | scraper/articles/article_scraper.py:90 | the leftmost occurrence of the separator; none exactly when it does not occur |
| Text.BeforeFirst | scraper/articles/article_scraper.py:90-92 | `split(' - ')[0]` is a prefix without the separator; the whole text exactly when the separator is absent, otherwise followed by it |
| Text.ReplaceAbsent | scraper/merge_articles.py:60 | `replace` leaves a text without the pattern unchanged |
| Text.ReplaceSkips | scraper/merge_articles.py:60 | characters that cannot start the pattern pass through `replace` untouched |
| Text.ReplaceTrailing | scraper/comments_scraper/nhk_comment_scraper.py:153 | a text ending in its only occurrence of the pattern gets just that occurrence replaced |
| Text.ReplaceFirst | src/data/loadArticle.ts:64 | JavaScript's string `replace`: a text without the pattern is unchanged; otherwise the leftmost occurrence, with none before it, is replaced by the replacement and the rest is kept |
| Text.JoinFirstNotBlank | scraper/articles/article_scraper.py:171 | a join whose first part is not blank is not blank |
| Text.JoinAllSpace | scraper/articles/article_scraper.py:171 | joined with a whitespace separator, the result is blank exactly when every part is |
| Text.Split | src/components/CommentList.tsx:23 | `split('\n')` gives one piece per separator plus one, none containing the separator |
| Text.JoinSplit | src/components/CommentList.tsx:23 | joining the pieces of a split with the separator gives the text back (round-trip) |
| Text.SplitNone | src/components/CommentList.tsx:23 | a text without the separator splits into itself alone |
| Text.SplitFirst | src/components/CommentList.tsx:23 | a separator-free piece before a separator splits off as the first piece |
| Text.LexIrreflexive | scraper/merge_articles.py:41 | string order is irreflexive |
| Text.LexTransitive | scraper/merge_articles.py:41 | string order is transitive |
| Text.LexTotal | scraper/merge_articles.py:41 | two distinct strings are ordered one way or the other |
| Text.LexCommonPrefix | scraper/merge_articles.py:41 | a common prefix does not change how two strings compare |
| Text.InsertSorted | scraper/comments_scraper/nhk_comment_scraper.py:183 | adding a URL to a sorted duplicate-free list keeps it sorted and duplicate-free, with exactly the old members and the new one |
| Text.SortedSet | scraper/comments_scraper/nhk_comment_scraper.py:174-185 | `sorted(list(set))` is strictly increasing, with exactly the members of the collection |
| Text.PathJoin | scraper/comments_scraper/batch_scraper.py:47 | `os.path.join`: an absolute second part replaces the first; otherwise one '/' between them unless the first is empty or ends in '/' |
| Patterns.AgeAt | scraper/comments_scraper/nhk_comment_scraper.py:32 | what the age pattern matches at a position is an age bucket occurring there |
| Patterns.AgeAtComplete | scraper/comments_scraper/nhk_comment_scraper.py:32 | any age bucket occurring at a position is what the age pattern matches there |
| Patterns.FirstAge | scraper/comments_scraper/nhk_comment_scraper.py:32-34 | `re.search` for the age: an age bucket at the found position and none earlier; none anywhere when nothing is found |
| Patterns.CountAt | scraper/comments_scraper/nhk_comment_scraper.py:120 | a count match is "みんなのコメント", an opening bracket, a digit group, 件 and a closing bracket, occurring at the position |
| Patterns.CountAtComplete | scraper/comments_scraper/nhk_comment_scraper.py:120 | any count text at a position is matched there, with its digits as the group |
| Patterns.DateAt | scraper/articles/article_scraper.py:110 | a match of `\d{4}年\d{1,2}月\d{1,2}日` is a date text occurring at the position |
| Patterns.DateAtComplete | scraper/articles/article_scraper.py:110 | any date text occurring at a position is what the pattern matches there |
| Patterns.FirstDate | scraper/articles/article_scraper.py:115-117 | `search(...).group(0)`: a date text that occurs in the string with no date text starting before it; none when the string holds none |
| Patterns.JpDateAt | src/data/loadArticle.ts:93 | a match of `(\d+)年(\d+)月(\d+)日` has three maximal digit groups, each followed by its marker |
| Patterns.JpDateAtFound | src/data/loadArticle.ts:93 | groups found at a position are exactly what the matcher returns |
| Patterns.JpDateFoundSound | src/data/loadArticle.ts:93 | the match is the date text of its three groups, occurring at the position |
| Patterns.JpDateFoundDigits | src/data/loadArticle.ts:97-98 | the three captured groups are non-empty digit strings, so `parseInt` reads them |
| Patterns.JpDateAtComplete | src/data/loadArticle.ts:93 | any `y年m月d日` text with digit groups at a position is matched there, with those groups |
| Patterns.JpPartsAt | src/data/loadArticle.ts:97 | the groups read from a date text found at a position are its year, month and day |
| CommentScraper.ParseAgeGender | scraper/comments_scraper/nhk_comment_scraper.py:25-42 | a missing or empty text gives neither; the age is the leftmost age bucket; the gender is 男性 whenever it appears, else 女性 when it appears, else none |
| CommentScraper.ParseComment | scraper/comments_scraper/nhk_comment_scraper.py:44-80 | no record exactly when name and content are both missing or empty; otherwise each field is its element's text, and age/gender come from the meta text |
| CommentScraper.Kept | scraper/comments_scraper/nhk_comment_scraper.py:99-105 | the kept records number at most the elements, and each has a name or a content |
| CommentScraper.KeptAppend | scraper/comments_scraper/nhk_comment_scraper.py:100-103 | the records of consecutive elements follow each other in document order |
| CommentScraper.KeptMembers | scraper/comments_scraper/nhk_comment_scraper.py:100-103 | a record is kept exactly when some element parses to it |
| CommentScraper.GetPageComments | scraper/comments_scraper/nhk_comment_scraper.py:87-110 | the loop returns the records of the elements that parse, in order, or nothing for a failed fetch |
| CommentScraper.HeadingCount | scraper/comments_scraper/nhk_comment_scraper.py:118-122 | a found count is a digit string inside a count text of the heading; when none is found, the heading holds no count text |
| CommentScraper.HeadingCountLeftmost | scraper/comments_scraper/nhk_comment_scraper.py:118-121 | the digits read belong to the leftmost count text of the heading: it starts at some p, and no count text starts before p |
| CommentScraper.HeadingCountAt | scraper/comments_scraper/nhk_comment_scraper.py:118-121 | a count text with none starting before it, anywhere in the unstripped heading, is the one whose digits are read |
| CommentScraper.TotalCommentCount | scraper/comments_scraper/nhk_comment_scraper.py:112-126 | zero when no heading holds a count text |
| CommentScraper.TotalCommentCountFirst | scraper/comments_scraper/nhk_comment_scraper.py:116-122 | when the earlier headings hold no count text and the leftmost count text of heading j, with any text around it and any digits, carries d, the count is `int(d)` |
| CommentScraper.PageCount | scraper/comments_scraper/nhk_comment_scraper.py:142-143 | the page count is zero exactly for zero comments, and otherwise the least number of ten-comment pages that hold them all |
| CommentScraper.CountedUrls | scraper/comments_scraper/nhk_comment_scraper.py:149-157 | one URL per page, the given URL first |
| CommentScraper.CountedUrlsAt | scraper/comments_scraper/nhk_comment_scraper.py:155-157 | page k+1's URL is the base path with `index{k+1:04d}.html` |
| CommentScraper.PageUrlsDistinct | scraper/comments_scraper/nhk_comment_scraper.py:156 | distinct page numbers give distinct URLs |
| CommentScraper.PageUrlReplacesIndex | scraper/comments_scraper/nhk_comment_scraper.py:153-156 | for a URL ending in its only "index.html", page n's URL is its directory with `index` and n padded to four digits |
| CommentScraper.BasePathWithoutIndex | scraper/comments_scraper/nhk_comment_scraper.py:153 | a URL without "index.html" is its own base path |
| CommentScraper.FindPagination | scraper/comments_scraper/nhk_comment_scraper.py:164-169 | the found nav is the first nav of the page with a numbered link (every earlier nav has none), and none is found exactly when no nav has one |
| CommentScraper.FollowedUrls | scraper/comments_scraper/nhk_comment_scraper.py:177-183 | at most one URL per link |
| CommentScraper.FollowedUrlsMembers | scraper/comments_scraper/nhk_comment_scraper.py:178-183 | the followed URLs are exactly the resolved targets of links with an href other than '#' or empty and a numeric or 次へ text |
| CommentScraper.CountedPagination | scraper/comments_scraper/nhk_comment_scraper.py:140-159 | with a count, there is one URL per page of ten comments: the given URL, then each page's numbered file |
| CommentScraper.FallbackPagination | scraper/comments_scraper/nhk_comment_scraper.py:160-185 | without a count: sorted and duplicate-free; the given URL alone when no nav is numbered; otherwise exactly the given URL and the followed targets of the first numbered nav |
| CommentScraper.GetPaginationUrls | scraper/comments_scraper/nhk_comment_scraper.py:128-191 | the method returns the pagination list the two lemmas above describe, and just the given URL when the page cannot be fetched |
| CommentScraper.CountedPageUrls | scraper/comments_scraper/nhk_comment_scraper.py:149-159 | the counted loop builds the counted URL list |
| CommentScraper.LinkedPageUrls | scraper/comments_scraper/nhk_comment_scraper.py:174-185 | the fallback loop builds the sorted set of the given URL and the followed URLs |
| CommentScraper.AllComments | scraper/comments_scraper/nhk_comment_scraper.py:201-206 | every collected comment has a name or a content |
| CommentScraper.AllCommentsMembers | scraper/comments_scraper/nhk_comment_scraper.py:203-206 | a comment is collected exactly when it is among the comments of one of the pages |
| CommentScraper.ScrapeAllComments | scraper/comments_scraper/nhk_comment_scraper.py:193-215 | the loop returns the comments of every pagination URL, page by page |
| CommentScraper.CountKind | scraper/comments_scraper/nhk_comment_scraper.py:259-262 | a type's count is at most the number of comments, and positive exactly when some comment has that type |
| CommentScraper.TypeCounts | scraper/comments_scraper/nhk_comment_scraper.py:259-262 | the statistics map has exactly the types that occur, each mapped to its number of comments |
| ArticleScraper.H1Candidates | scraper/articles/article_scraper.py:60-83 | there are three `h1` candidates, tried in order |
| ArticleScraper.FirstTruthy | scraper/articles/article_scraper.py:60-83 | the first non-empty candidate: it is non-empty, and all before it (all, when none) are empty |
| ArticleScraper.GetTitle | scraper/articles/article_scraper.py:57-97 | the first non-empty `h1` of article, main and page; failing all, the title element's text before " - ", stripped; else none |
| ArticleScraper.TitleFromTagProps | scraper/articles/article_scraper.py:86-92 | the title taken from the title element is stripped and holds no " - "; without " - " it is the whole text, stripped |
| ArticleScraper.GetDate | scraper/articles/article_scraper.py:99-132 | the `time` text when there is one; otherwise the leftmost date text of the article's text when it holds one; otherwise the leftmost date text of main's first block; none only when neither holds one |
| ArticleScraper.ArticleDateFirst | scraper/articles/article_scraper.py:113-117 | a date text anywhere in the article wins over main's |
| ArticleScraper.Part | scraper/articles/article_scraper.py:150-168 | an element contributes nothing exactly when it has a blocked class or an empty/navigation text; headings, quotes and paragraphs are formatted as written |
| ArticleScraper.Parts | scraper/articles/article_scraper.py:147-168 | at most one contribution per element |
| ArticleScraper.PartsMembers | scraper/articles/article_scraper.py:147-168 | a piece is a contribution exactly when some element contributes it |
| ArticleScraper.PartsAppend | scraper/articles/article_scraper.py:147-168 | contributions of consecutive elements follow each other in document order |
| ArticleScraper.BodyOf | scraper/articles/article_scraper.py:171-172 | a body is non-empty and stripped |
| ArticleScraper.ContentOf | scraper/articles/article_scraper.py:140-144 | no body without a main or article container |
| ArticleScraper.GetContent | scraper/articles/article_scraper.py:134-178 | the loop returns exactly the body the element contributions make |
| ArticleScraper.PartNotBlank | scraper/articles/article_scraper.py:154-168 | a contribution of a stripped element text is never blank |
| ArticleScraper.PartsNotBlank | scraper/articles/article_scraper.py:147-168 | no contribution is blank |
| ArticleScraper.NoPartsIff | scraper/articles/article_scraper.py:147-168 | there are no contributions exactly when every element is skipped |
| ArticleScraper.BodyMissingIff | scraper/articles/article_scraper.py:171-172 | the body is missing exactly when no element contributes, i.e. every element is blocked or empty |
| ArticleScraper.BodyMissingNoParts | scraper/articles/article_scraper.py:171-172 | the body is missing exactly when there are no contributions |
| ArticleScraper.JoinedBlankIff | scraper/articles/article_scraper.py:171 | the joined contributions are blank exactly when there are none |
| ArticleScraper.JoinedNotBlank | scraper/articles/article_scraper.py:171 | with at least one contribution the join is not blank |
| ArticleScraper.SingleParagraph | scraper/articles/article_scraper.py:147-172 | a body of one plain paragraph is that paragraph's text |
| ArticleScraper.ScrapeArticle | scraper/articles/article_scraper.py:22-55 | no record exactly when the page is missing, the title is empty or there is no body; otherwise the page's title, date and body with the scraped URL |
| BatchScraper.TopicIdParts | scraper/comments_scraper/batch_scraper.py:40-41 | a topic id is the category, '_' and at least three digits that read back as the id |
| BatchScraper.TopicIdInjective | scraper/comments_scraper/batch_scraper.py:40-41 | distinct ids give distinct topic ids |
| BatchScraper.FormatPaddedInjective | scraper/comments_scraper/batch_scraper.py:40 | `f"{n:03d}"` never gives two ids the same text |
| BatchScraper.Classify | scraper/comments_scraper/batch_scraper.py:52-90 | a failed request is an error; any status but 200 is a skip; a 200 with no comments is a skip; a 200 with comments is a success exactly when the write succeeds, and an error otherwise; a success holds the topic's comments and the id's output file |
| BatchScraper.Tally | scraper/comments_scraper/batch_scraper.py:27-29 | every id of the range is counted exactly once among success, skip and error |
| BatchScraper.Saved | scraper/comments_scraper/batch_scraper.py:80-86 | one saved file per success |
| BatchScraper.SavedAt | scraper/comments_scraper/batch_scraper.py:80-86 | each saved file is that of a successful id of the range |
| BatchScraper.SavedDistinct | scraper/comments_scraper/batch_scraper.py:47 | when distinct ids never share a file, no file is saved twice |
| BatchScraper.RunSavesDistinctFiles | scraper/comments_scraper/batch_scraper.py:39-90 | in a run, no file is saved twice, and each saved file is its id's output file holding that topic's comments |
| BatchScraper.OutputFileInjective | scraper/comments_scraper/batch_scraper.py:47 | distinct ids have distinct output files |
| BatchScraper.PathJoinInjective | scraper/comments_scraper/batch_scraper.py:47 | joining onto one directory keeps distinct names of the same kind distinct |
| BatchScraper.ProcessArticle | scraper/comments_scraper/batch_scraper.py:40-90 | one pass of the loop ends as the outcome the id classifies as |
| BatchScraper.CountOutcome | scraper/comments_scraper/batch_scraper.py:60-90 | one counter goes up per id, the one of its outcome; a success's file joins the saved list |
| BatchScraper.ScrapeArticleRange | scraper/comments_scraper/batch_scraper.py:13-96 | the counters are the tally of the range; success+skip+error is the number of ids; the saved files are those of the successes in id order |
| MergeArticles.Matching | scraper/merge_articles.py:40 | the glob yields exactly the directory's names that match `{category}_*.json` |
| MergeArticles.ArticleFiles | scraper/merge_articles.py:40-41 | the processed files are strictly sorted and are exactly the matching names |
| MergeArticles.PathOrder | scraper/merge_articles.py:41 | sorting the joined paths orders them as their names |
| MergeArticles.GlobMatchShape | scraper/merge_articles.py:40 | a name matches the glob exactly when it is `{category}_{num}.json` |
| MergeArticles.DropCategory | scraper/merge_articles.py:60 | removing `{category}_` from `{category}_{num}.json` leaves `{num}.json` when num holds no '_' |
| MergeArticles.DropJson | scraper/merge_articles.py:60 | removing ".json" from `{num}.json` leaves num when num holds no '.' |
| MergeArticles.ArticleNumOf | scraper/merge_articles.py:58-69 | the article number read from `{category}_{num}.json` is num, so the comment file looked up is that same name |
| MergeArticles.MergeKeepsFourKeys | scraper/merge_articles.py:81-87 | only the four keys matter, and a missing key becomes "" |
| MergeArticles.MergeOne | scraper/merge_articles.py:55-106 | it fails exactly when the article is unreadable or not an object, the comment file is unreadable, or the write fails; otherwise it writes `article_{num}.json` with the four fields and the comment file's comments (none without a comment file), and counts as a success exactly when the summary print does not fail |
| MergeArticles.ScrapedArticleMerges | scraper/merge_articles.py:72-94 | a file the article scraper saved merges, carrying its title, url, content and date (null when it had none) |
| MergeArticles.Successes | scraper/merge_articles.py:101 | no more successes than files |
| MergeArticles.Errors | scraper/merge_articles.py:106 | successes and errors add up to the number of files |
| MergeArticles.Written | scraper/merge_articles.py:93-94 | at most one write per file |
| MergeArticles.WrittenFrom | scraper/merge_articles.py:93-94 | every written entry comes from an outcome that wrote it |
| MergeArticles.SuccessesWritten | scraper/merge_articles.py:93-101 | every success's record was written to its file; an error may also have been written |
| MergeArticles.MergeAll | scraper/merge_articles.py:55 | one outcome per article file, in order |
| MergeArticles.MergeFile | scraper/merge_articles.py:56-106 | the loop body ends as the file's outcome |
| MergeArticles.CountMerge | scraper/merge_articles.py:93-106 | a merge counts as a success and anything else as an error; a written record joins the written list |
| MergeArticles.MergeArticleWithComments | scraper/merge_articles.py:16-106 | the counters are the successes and errors of the sorted files, adding up to their number, and the writes are those of the outcomes |
| LoadArticle.ParseArticleId | src/data/loadArticle.ts:58-67 | `NNNN_NNN` splits at '_'; `article_NNN` is category 0026 with its number; any other id is rejected |
| LoadArticle.ListIdOpensSameFile | src/data/loadArticle.ts:16-22 | the id the list gives index i of a four-digit category parses back to that category and number |
| LoadArticle.LoadArticleDetail | src/data/loadArticle.ts:51-89 | an invalid id throws; it loads exactly when the id parses and its file is ok; a loaded article carries the id, the file's fields and its comments (none when absent) |
| LoadArticle.ParseJapaneseDateNone | src/data/loadArticle.ts:94-96 | a string without a date text parses to the epoch |
| LoadArticle.ParseJapaneseDateAt | src/data/loadArticle.ts:92-99 | the leftmost date text `y年m月d日` parses to (y, m-1, d) |
| LoadArticle.ScrapedDateParses | src/data/loadArticle.ts:92-99 | every date the article scraper extracts parses to its own year, month-1 and day |
| LoadArticle.InsertBy | src/data/loadArticle.ts:37-41 | inserting into a newest-first list keeps it newest-first and adds exactly that item |
| LoadArticle.SortBy | src/data/loadArticle.ts:37-41 | the sort is newest-first by the key and a permutation of its input |
| LoadArticle.SortByDate | src/data/loadArticle.ts:37-41 | sorted newest first by parsed date, as a permutation of the loaded items |
| LoadArticle.UnparseableLast | src/data/loadArticle.ts:94-96 | an item whose date does not parse sorts after every item with a later date |
| LoadArticle.SortAsWritten | src/data/loadArticle.ts:37-41 | the sort as written yields nothing exactly for no items or for two or more items one of which has a null date; otherwise it yields the items newest first |
| LoadArticle.NullDateEmptiesList | src/data/loadArticle.ts:37-46 | two items, one without a date: the list as written is empty, while the corrected sort keeps both |
| LoadArticle.NullDateEmpties | src/data/loadArticle.ts:37-46 | the sort as written empties every list of two or more items one of which has a null date |
| LoadArticle.NullDateEmptiesLoadedList | src/data/loadArticle.ts:13-46 | the loader as written: once two or more items are collected from the target categories and any loaded file of them has a null date, the list is empty |
| LoadArticle.CategoryItemsHas | src/data/loadArticle.ts:15-27 | every file of a category with an index in 1..n that loads gives an item |
| LoadArticle.CollectedHas | src/data/loadArticle.ts:13-27 | every item of a visited category is an item of the collected list |
| LoadArticle.TargetCategories | src/data/loadArticle.ts:11 | a given non-empty category alone, otherwise the five default categories |
| LoadArticle.ItemAt | src/data/loadArticle.ts:17-28 | an index gives one item exactly when its file loads |
| LoadArticle.CategoryItems | src/data/loadArticle.ts:15-33 | at most one item per index |
| LoadArticle.CategoryItemFrom | src/data/loadArticle.ts:15-28 | each item of a category comes from a file of it with an index in 1..n that loaded |
| LoadArticle.CollectedFrom | src/data/loadArticle.ts:13-28 | each collected item comes from a loaded file of a target category, under that category's id |
| LoadArticle.ItemOpens | src/data/loadArticle.ts:16-27 | an item of a four-digit category opens with the same title, date, url and comments |
| LoadArticle.ListedItemOpens | src/data/loadArticle.ts:13-27 | every listed item opens in the detail loader with the same title, date, url and comments |
| LoadArticle.DefaultItemOpens | src/data/loadArticle.ts:4-27 | every item collected for the five default categories opens in the detail loader with the same id, title, date, url and comments |
| LoadArticle.LoadCategory | src/data/loadArticle.ts:15-33 | the inner loop collects the items of indexes 1..300 whose files load, in order |
| LoadArticle.LoadCategories | src/data/loadArticle.ts:13-34 | the outer loop collects the categories' items, category by category |
| LoadArticle.LoadArticleList | src/data/loadArticle.ts:6-48 | the list is the collected items sorted newest first, and a permutation of them, with the corrected sort (see Findings) |
| CommentList.ToUpper | src/components/CommentList.tsx:31 | a lower-case ASCII letter becomes the upper-case letter 32 code points below it; no result is a lower-case ASCII letter, and other characters are unchanged |
| CommentList.GetInitials | src/components/CommentList.tsx:30-32 | the first character, upper-cased; empty exactly for an empty name |
| CommentList.GetAgeGenderText | src/components/CommentList.tsx:34-39 | null exactly when neither is present; otherwise the present ones, age first, joined by a space |
| CommentList.ChipOfParsedMeta | src/components/CommentList.tsx:77-84 | a scraped comment shows no chip exactly when its meta text names neither an age bucket nor a gender |
| CommentList.FormatContent | src/components/CommentList.tsx:22-28 | one line per '\n' plus one, none holding a '\n', and joining them gives the content back |
| CommentList.RowsFrom | src/components/CommentList.tsx:63-99 | the comments from an index, each followed by a divider except the last |
| CommentList.Rows | src/components/CommentList.tsx:63-99 | comments at even rows, in order, and dividers exactly at the odd rows |
| CommentList.DividersBetween | src/components/CommentList.tsx:97 | the rows from index i of n comments hold n-i-1 dividers |
| CommentList.DividerCountOfList | src/components/CommentList.tsx:97 | a list of n comments shows n-1 dividers |

## Left out

- HTTP, HTML parsing, JSON files and the file system are not modelled. A page is a record of the texts the code reads from it. Fetching, `response.ok`/status, `urljoin` and file writes are function parameters.
- `time.sleep`, every `print`/`console.error`, `argparse`, the User-Agent header and `os.makedirs` are left out. Failure of `os.makedirs` is not modelled, because it raises before the loop and nothing is counted.
- The comment scraper's `main` JSON dump and the sorting of the printed statistics are left out. Only the counting loop is modelled, by `TypeCounts`.
- The empty-list notice and the JSX rendering of the comment list are not modelled. Only the helpers and the placement of the dividers are.
- Text.IsDigit: the scrapers' `\d` (on str patterns) and `str.isdigit()` are modelled on ASCII digits, while Python's also accept other Unicode decimal digits (and `isdigit()` superscripts). The front end's `\d` and `parseInt` in src/data/loadArticle.ts read only ASCII digits, so there the model is exact.
- CommentList.ToUpper: upper-cases ASCII letters only, while JavaScript's `toUpperCase` covers all of Unicode and can lengthen a string.
- LoadArticle.ParseJapaneseDate: gives the (year, month-1, day) triple. It does not model JavaScript `Date` normalisation (month/day overflow, years 0–99), the time zone, or `NaN` for huge numbers. The epoch is the triple (1970, 0, 1).
- LoadArticle.LoadArticleList: models the corrected sort. As written, two or more collected items one of which has a null date make the loader return an empty list; that behaviour is stated by LoadArticle.SortAsWritten and LoadArticle.NullDateEmptiesLoadedList (see Findings).
- LoadArticle.SortByDate: a stable insertion sort stands for the engine's sort. Only its ordering and permutation are stated, not the order among equal dates.
- MergeArticles.Matching: the glob is modelled as prefix/suffix matching on names. Glob metacharacters inside the category and the skipping of hidden files are not modelled.
- JSON values other than strings and null in the article fields are not modelled. Comment lists are taken as read.
- CommentList.GetInitials: `name` and `content` are taken as strings, as the TypeScript types declare, although the scraper can store null for them. A string here is a sequence of code points, so the model takes the first code point of the name. `charAt(0)` takes the first UTF-16 code unit, so for a name whose first character lies outside the Basic Multilingual Plane (an emoji, a CJK Extension B kanji) the source yields a lone high surrogate where the model yields the whole character.
- CommentScraper.ParseComment: the `try/except` around `parse_comment` is not modelled, because the modelled steps cannot raise.

## Findings

| source | as written | input that shows it | evidently intended | confidence | as-written member | corrected member |
|---|---|---|---|---|---|---|
| src/data/loadArticle.ts:37-41 | the sort comparator calls `parseJapaneseDate`, which calls `dateStr.match` on the item's date. The article scraper stores `null` when it finds no date, and the merge keeps it. A null date throws inside the comparator, and the outer `catch` returns an empty list. | two or more loaded articles, one whose date is null | an unparseable date counts as the epoch and sorts last, as the comment at line 95 says | not executed | LoadArticle.NullDateEmptiesLoadedList | LoadArticle.SortByDate |
