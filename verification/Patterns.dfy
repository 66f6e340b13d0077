/** The regular expressions of the scrapers and the front end, each as a
    matcher at one position of the text. Every matcher is SOUND (what it
    returns is a string of the pattern's language found at that position)
    and COMPLETE (any string of the language found there is exactly what it
    returns); `Text.Search` then gives the leftmost match that `re.search`
    and `String.prototype.match` return. `\d` is read as the ASCII digits. */
module Patterns {
  import opened Values
  import opened Text

  /** A digit string `d` at `i` that is not followed by another digit is
      the whole run of digits there. */
  lemma DigitRunExact(s: string, i: nat, d: string)
    requires Occurs(d, s, i) && AllDigits(d)
    requires i + |d| == |s| || !IsDigit(s[i + |d|])
    ensures DigitRun(s, i) == |d|
  {
    var n := DigitRun(s, i);
    DigitRunDigits(s, i);
    assert forall k :: i <= k < i + |d| ==> IsDigit(s[k]) by {
      forall k | i <= k < i + |d| ensures IsDigit(s[k]) {
        assert s[k] == s[i..i + |d|][k - i];
      }
    }
    assert forall k :: i <= k < i + n ==> IsDigit(s[k]) by {
      forall k | i <= k < i + n ensures IsDigit(s[k]) {
        assert s[k] == s[i..i + n][k - i];
      }
    }
  }

  /** A piece of a string found at `i` is found at the matching offset. */
  lemma OccursSlice(m: string, s: string, i: nat, a: nat, b: nat)
    requires Occurs(m, s, i) && a <= b <= |m|
    ensures s[i + a..i + b] == m[a..b]
  {
    forall k | 0 <= k < b - a ensures s[i + a..i + b][k] == m[a..b][k] {
      assert m[a + k] == s[i..i + |m|][a + k];
    }
  }

  /** A piece of a string found at `i` is itself found at its offset. */
  lemma OccursPart(m: string, s: string, i: nat, a: nat, b: nat)
    requires Occurs(m, s, i) && a <= b <= |m|
    ensures Occurs(m[a..b], s, i + a)
  {
    OccursSlice(m, s, i, a, b);
  }

  // ---------------------------------------------------------------------
  // Age bucket:  (\d+代|19歳以下|70歳以上)
  // ---------------------------------------------------------------------

  const Under20 := "19歳以下"
  const Over70 := "70歳以上"

  /** The language of the age pattern. */
  predicate IsAgeBucket(a: string) {
    a == Under20 || a == Over70 ||
    (|a| >= 2 && a[|a| - 1] == '代' && IsDigitString(a[..|a| - 1]))
  }

  /** The age pattern tried at position `i`, alternatives in order. */
  function AgeAt(s: string, i: nat): (r: Option<string>)
    ensures r.Some? ==> IsAgeBucket(r.value) && Occurs(r.value, s, i)
  {
    if i > |s| then None
    else
      var n := DigitRun(s, i);
      if n > 0 && i + n < |s| && s[i + n] == '代' then
        var a := s[i..i + n + 1];
        DigitRunDigits(s, i);
        assert a[..|a| - 1] == s[i..i + n];
        Some(a)
      else if Occurs(Under20, s, i) then Some(Under20)
      else if Occurs(Over70, s, i) then Some(Over70)
      else None
  }

  /** At most one age bucket starts at a position, and `AgeAt` finds it. */
  lemma AgeAtComplete(s: string, i: nat, t: string)
    requires IsAgeBucket(t) && Occurs(t, s, i)
    ensures AgeAt(s, i) == Some(t)
  {
    if t == Under20 || t == Over70 {
      assert s[i + 2] == t[2] && !IsDigit(t[2]);
      DigitRunExact(s, i, t[..2]);
      assert s[i + 2] != '代';
    } else {
      var d := t[..|t| - 1];
      assert s[i + |d|] == t[|d|];
      DigitRunExact(s, i, d);
      assert s[i..i + |d| + 1] == t;
    }
  }

  /** The leftmost age bucket of `s`, with its position. */
  function FirstAge(s: string): (r: Option<(nat, string)>)
    ensures r.Some? ==> IsAgeBucket(r.value.1) && Occurs(r.value.1, s, r.value.0)
    ensures forall k, t :: 0 <= k && (r.None? || k < r.value.0) && IsAgeBucket(t) ==> !Occurs(t, s, k)
  {
    var at := (k: nat) => AgeAt(s, k);
    var r := Search(|s|, at, 0);
    assert forall k, t :: 0 <= k && (r.None? || k < r.value.0) && IsAgeBucket(t) ==> !Occurs(t, s, k) by {
      forall k: nat, t | (r.None? || k < r.value.0) && IsAgeBucket(t) && Occurs(t, s, k) ensures false {
        assert k < |s| && at(k).None?;
        AgeAtComplete(s, k, t);
      }
    }
    r
  }

  // ---------------------------------------------------------------------
  // Comment count heading:  みんなのコメント[（(](\d+)件[)）]
  // ---------------------------------------------------------------------

  const CountLabel := "みんなのコメント"

  predicate IsOpenParen(c: char) {
    c == '（' || c == '('
  }

  predicate IsCloseParen(c: char) {
    c == ')' || c == '）'
  }

  /** The text the count pattern matches, for a given digit group and pair
      of brackets (full-width and ASCII brackets may be mixed). */
  function CountText(open: char, digits: string, close: char): string {
    CountLabel + [open] + digits + "件" + [close]
  }

  /** The count pattern at position `i`; the result is its digit group. */
  function CountAt(s: string, i: nat): (r: Option<string>)
    ensures r.Some? ==>
      var j := i + |CountLabel|;
      && IsDigitString(r.value)
      && j + |r.value| + 2 < |s|
      && IsOpenParen(s[j]) && IsCloseParen(s[j + |r.value| + 2])
      && Occurs(CountText(s[j], r.value, s[j + |r.value| + 2]), s, i)
  {
    if !Occurs(CountLabel, s, i) then None
    else
      var j := i + |CountLabel|;
      if j < |s| && IsOpenParen(s[j]) then
        var n := DigitRun(s, j + 1);
        if n > 0 && j + n + 2 < |s| && s[j + 1 + n] == '件' && IsCloseParen(s[j + n + 2]) then
          var d := s[j + 1..j + 1 + n];
          DigitRunDigits(s, j + 1);
          assert s[i..j + n + 3] == CountText(s[j], d, s[j + n + 2]);
          Some(d)
        else None
      else None
  }

  /** Any count heading text at `i` is the one `CountAt` finds. */
  lemma CountAtComplete(s: string, i: nat, open: char, d: string, close: char)
    requires IsOpenParen(open) && IsCloseParen(close) && IsDigitString(d)
    requires Occurs(CountText(open, d, close), s, i)
    ensures CountAt(s, i) == Some(d)
  {
    var m := CountText(open, d, close);
    var j := i + |CountLabel|;
    CountTextPieces(CountLabel, open, d, close);
    OccursPart(m, s, i, 0, |CountLabel|);
    OccursPart(m, s, i, |CountLabel| + 1, |CountLabel| + 1 + |d|);
    assert s[j] == m[|CountLabel|];
    assert s[j + 1 + |d|] == m[|CountLabel| + 1 + |d|];
    assert s[j + |d| + 2] == m[|m| - 1];
    DigitRunExact(s, j + 1, d);
  }

  /** The pieces of a label, a bracket, digits, 件 and a bracket. */
  lemma CountTextPieces(lab: string, open: char, d: string, close: char)
    ensures var m := lab + [open] + d + "件" + [close];
      && |m| == |lab| + |d| + 3 && m[..|lab|] == lab && m[|lab|] == open
      && m[|lab| + 1..|lab| + 1 + |d|] == d && m[|lab| + 1 + |d|] == '件' && m[|m| - 1] == close
  {
  }

  // ---------------------------------------------------------------------
  // Article date in the scraper:  \d{4}年\d{1,2}月\d{1,2}日
  // ---------------------------------------------------------------------

  /** `m` is four digits, 年, `b` digits, 月, `c` digits, 日. */
  predicate DateShape(m: string, b: nat, c: nat) {
    |m| == 7 + b + c && AllDigits(m[..4]) && m[4] == '年' &&
    AllDigits(m[5..5 + b]) && m[5 + b] == '月' &&
    AllDigits(m[6 + b..6 + b + c]) && m[6 + b + c] == '日'
  }

  /** The language of the scraper's date pattern. */
  predicate IsDateText(m: string) {
    DateShape(m, 1, 1) || DateShape(m, 1, 2) || DateShape(m, 2, 1) || DateShape(m, 2, 2)
  }

  /** The date pattern at position `i`; the result is the matched text. */
  function DateAt(s: string, i: nat): (r: Option<string>)
    ensures r.Some? ==> IsDateText(r.value) && Occurs(r.value, s, i)
  {
    if i > |s| || DigitRun(s, i) != 4 || i + 4 >= |s| || s[i + 4] != '年' then None
    else
      var b := DigitRun(s, i + 5);
      if b < 1 || b > 2 || i + 5 + b >= |s| || s[i + 5 + b] != '月' then None
      else
        var c := DigitRun(s, i + 6 + b);
        if c < 1 || c > 2 || i + 6 + b + c >= |s| || s[i + 6 + b + c] != '日' then None
        else
          DateAtSound(s, i, b, c);
          Some(s[i..i + 7 + b + c])
  }

  /** Four digits, 年, `b` digits, 月, `c` digits and 日 at `i` form a date
      text. */
  lemma DateAtSound(s: string, i: nat, b: nat, c: nat)
    requires i + 7 + b + c <= |s|
    requires DigitRun(s, i) == 4 && s[i + 4] == '年'
    requires DigitRun(s, i + 5) == b && s[i + 5 + b] == '月'
    requires DigitRun(s, i + 6 + b) == c && s[i + 6 + b + c] == '日'
    ensures DateShape(s[i..i + 7 + b + c], b, c) && Occurs(s[i..i + 7 + b + c], s, i)
  {
    var j := i + 7 + b + c;
    RunInSlice(s, i, j, 0, i, 4);
    RunInSlice(s, i, j, 5, i + 5, b);
    RunInSlice(s, i, j, 6 + b, i + 6 + b, c);
    ShapeOfPieces(s[i..j], b, c);
  }

  /** The pieces of a date text, with the year given as a `0..4` slice. */
  lemma ShapeOfPieces(m: string, b: nat, c: nat)
    requires |m| == 7 + b + c && AllDigits(m[0..0 + 4]) && m[4] == '年'
    requires AllDigits(m[5..5 + b]) && m[5 + b] == '月'
    requires AllDigits(m[6 + b..6 + b + c]) && m[6 + b + c] == '日'
    ensures DateShape(m, b, c)
  {
    assert m[..4] == m[0..0 + 4];
  }

  /** The digit run at `i + a` read inside the slice `s[i..j]`. */
  lemma RunInSlice(s: string, i: nat, j: nat, a: nat, p: nat, n: nat)
    requires i <= j <= |s| && a + n <= j - i && p == i + a && DigitRun(s, p) == n
    ensures AllDigits(s[i..j][a..a + n])
  {
    DigitRunDigits(s, p);
    var t := s[i..j][a..a + n];
    forall k | 0 <= k < n ensures t[k] == s[p..p + n][k] {
    }
    assert t == s[p..p + n];
  }

  lemma DateAtCompleteShape(s: string, i: nat, m: string, b: nat, c: nat)
    requires 1 <= b <= 2 && 1 <= c <= 2 && DateShape(m, b, c) && Occurs(m, s, i)
    ensures DateAt(s, i) == Some(m)
  {
    assert m[0..5] == m[..4] + ['年'];
    GroupInText(m, s, i, 0, i, m[..4], '年');
    assert m[5..6 + b] == m[5..5 + b] + ['月'];
    GroupInText(m, s, i, 5, i + 5, m[5..5 + b], '月');
    assert m[6 + b..7 + b + c] == m[6 + b..6 + b + c] + ['日'];
    GroupInText(m, s, i, 6 + b, i + 6 + b, m[6 + b..6 + b + c], '日');
  }

  /** Any date text at `i` is the one `DateAt` finds. */
  lemma DateAtComplete(s: string, i: nat, m: string)
    requires IsDateText(m) && Occurs(m, s, i)
    ensures DateAt(s, i) == Some(m)
  {
    if DateShape(m, 1, 1) { DateAtCompleteShape(s, i, m, 1, 1); }
    else if DateShape(m, 1, 2) { DateAtCompleteShape(s, i, m, 1, 2); }
    else if DateShape(m, 2, 1) { DateAtCompleteShape(s, i, m, 2, 1); }
    else { DateAtCompleteShape(s, i, m, 2, 2); }
  }

  /** No date text starts in `s` before position `p`. */
  ghost predicate NoDateBefore(s: string, p: nat) {
    forall k: nat, m :: k < p && IsDateText(m) ==> !Occurs(m, s, k)
  }

  /** `date_pattern.search(text)`: the leftmost date text, if any. */
  function FirstDate(s: string): (r: Option<string>)
    ensures r.Some? ==> IsDateText(r.value) && Contains(s, r.value)
    ensures r.Some? ==> exists p :: Occurs(r.value, s, p) && NoDateBefore(s, p)
    ensures r.None? ==> forall k, m :: IsDateText(m) ==> !Occurs(m, s, k)
  {
    var at := (k: nat) => DateAt(s, k);
    var f := Search(|s|, at, 0);
    if f.Some? then
      var p := f.value.0;
      assert Occurs(f.value.1, s, p);
      assert NoDateBefore(s, p) by {
        forall k: nat, m | k < p && IsDateText(m) && Occurs(m, s, k) ensures false {
          assert k < |s| && at(k).None?;
          DateAtComplete(s, k, m);
        }
      }
      Some(f.value.1)
    else
      assert forall k, m :: IsDateText(m) ==> !Occurs(m, s, k) by {
        forall k: nat, m | IsDateText(m) && Occurs(m, s, k) ensures false {
          assert k < |s| && at(k).None?;
          DateAtComplete(s, k, m);
        }
      }
      None
  }

  // ---------------------------------------------------------------------
  // Front-end date:  (\d+)年(\d+)月(\d+)日
  // ---------------------------------------------------------------------

  function JpDateText(y: string, m: string, d: string): string {
    y + "年" + m + "月" + d + "日"
  }

  /** `(\d+)x` at position `i`: one or more digits followed by `x`. */
  predicate GroupAt(s: string, i: nat, x: char) {
    i <= |s| && DigitRun(s, i) > 0 && i + DigitRun(s, i) < |s| && s[i + DigitRun(s, i)] == x
  }

  lemma GroupAtComplete(s: string, i: nat, g: string, x: char)
    requires !IsDigit(x) && IsDigitString(g) && Occurs(g + [x], s, i)
    ensures GroupAt(s, i, x) && DigitRun(s, i) == |g|
  {
    OccursSlice(g + [x], s, i, 0, |g|);
    assert (g + [x])[..|g|] == g;
    assert s[i + |g|] == (g + [x])[|g|];
    DigitRunExact(s, i, g);
  }

  /** Digit groups of lengths `a`, `b`, `c`, followed by 年, 月 and 日
      respectively, start at `i`. */
  predicate JpDateFound(s: string, i: nat, a: nat, b: nat, c: nat) {
    && GroupAt(s, i, '年') && a == DigitRun(s, i)
    && GroupAt(s, i + a + 1, '月') && b == DigitRun(s, i + a + 1)
    && GroupAt(s, i + a + b + 2, '日') && c == DigitRun(s, i + a + b + 2)
  }

  /** The front-end date pattern at position `i`; the result is the
      lengths of its three digit groups. */
  function JpDateAt(s: string, i: nat): (r: Option<(nat, nat, nat)>)
    ensures r.Some? ==> JpDateFound(s, i, r.value.0, r.value.1, r.value.2)
  {
    if !GroupAt(s, i, '年') then None
    else
      var a := DigitRun(s, i);
      if !GroupAt(s, i + a + 1, '月') then None
      else
        var b := DigitRun(s, i + a + 1);
        if !GroupAt(s, i + a + b + 2, '日') then None
        else Some((a, b, DigitRun(s, i + a + b + 2)))
  }

  /** Whatever groups are found at `i` are the ones `JpDateAt` returns. */
  lemma JpDateAtFound(s: string, i: nat, a: nat, b: nat, c: nat)
    requires JpDateFound(s, i, a, b, c)
    ensures JpDateAt(s, i) == Some((a, b, c))
  {
  }

  function JpYear(s: string, i: nat, a: nat): string
    requires i + a <= |s|
  {
    s[i..i + a]
  }

  function JpMonth(s: string, i: nat, a: nat, b: nat): string
    requires i + a + 1 + b <= |s|
  {
    s[i + a + 1..i + a + 1 + b]
  }

  function JpDay(s: string, i: nat, a: nat, b: nat, c: nat): string
    requires i + a + b + 2 + c <= |s|
  {
    s[i + a + b + 2..i + a + b + 2 + c]
  }

  /** What `JpDateAt` finds is a date text at `i`. */
  lemma JpDateFoundSound(s: string, i: nat, a: nat, b: nat, c: nat)
    requires JpDateFound(s, i, a, b, c)
    ensures i + a + b + c + 3 <= |s|
    ensures Occurs(JpDateText(JpYear(s, i, a), JpMonth(s, i, a, b), JpDay(s, i, a, b, c)), s, i)
  {
    JpDateTextAt(s, i, a, b, c);
  }

  /** The three groups `JpDateAt` finds are digit strings. */
  lemma JpDateFoundDigits(s: string, i: nat, a: nat, b: nat, c: nat)
    requires JpDateFound(s, i, a, b, c)
    ensures i + a + b + c + 3 <= |s|
    ensures IsDigitString(JpYear(s, i, a)) && IsDigitString(JpMonth(s, i, a, b)) && IsDigitString(JpDay(s, i, a, b, c))
  {
    YearDigits(s, i, a);
    MonthDigits(s, i, a, b);
    DayDigits(s, i, a, b, c);
  }

  lemma YearDigits(s: string, i: nat, a: nat)
    requires GroupAt(s, i, '年') && a == DigitRun(s, i)
    ensures i + a < |s| && IsDigitString(JpYear(s, i, a))
  {
    GroupSound(s, i, a, '年');
  }

  lemma MonthDigits(s: string, i: nat, a: nat, b: nat)
    requires i + a + 1 <= |s| && GroupAt(s, i + a + 1, '月') && b == DigitRun(s, i + a + 1)
    ensures i + a + 1 + b < |s| && IsDigitString(JpMonth(s, i, a, b))
  {
    GroupSound(s, i + a + 1, b, '月');
  }

  lemma DayDigits(s: string, i: nat, a: nat, b: nat, c: nat)
    requires i + a + b + 2 <= |s| && GroupAt(s, i + a + b + 2, '日') && c == DigitRun(s, i + a + b + 2)
    ensures i + a + b + 2 + c < |s| && IsDigitString(JpDay(s, i, a, b, c))
  {
    GroupSound(s, i + a + b + 2, c, '日');
  }

  /** A group found at `p` is a digit string followed by its marker. */
  lemma GroupSound(s: string, p: nat, n: nat, x: char)
    requires GroupAt(s, p, x) && n == DigitRun(s, p)
    ensures p + n < |s| && IsDigitString(s[p..p + n]) && s[p + n] == x
  {
    DigitRunDigits(s, p);
  }

  /** Three pieces of `s` separated by the three markers spell a date text. */
  lemma JpDateTextAt(s: string, i: nat, a: nat, b: nat, c: nat)
    requires i + a + b + c + 3 <= |s|
    requires s[i + a] == '年' && s[i + a + 1 + b] == '月' && s[i + a + b + 2 + c] == '日'
    ensures Occurs(JpDateText(JpYear(s, i, a), JpMonth(s, i, a, b), JpDay(s, i, a, b, c)), s, i)
  {
    var p, q, e := i + a + 1, i + a + b + 2, i + a + b + c + 3;
    var y, m, d := JpYear(s, i, a), JpMonth(s, i, a, b), JpDay(s, i, a, b, c);
    PieceAt(s, i, a);
    PieceAt(s, p, b);
    PieceAt(s, q, c);
    SliceSplit(s, i, p, e);
    SliceSplit(s, p, q, e);
    JpTextOfPieces(s[i..e], s[i..p], s[p..q], s[q..e], y, m, d);
  }

  /** Three pieces, each a group and its marker, make up a date text. */
  lemma JpTextOfPieces(t: string, u: string, v: string, w: string, y: string, m: string, d: string)
    requires t == u + (v + w)
    requires u == y + "年" && v == m + "月" && w == d + "日"
    ensures t == JpDateText(y, m, d)
  {
  }

  /** A slice ending one past `p + n` is the slice up to `p + n` and the
      character there. */
  lemma PieceAt(s: string, p: nat, n: nat)
    requires p + n < |s|
    ensures s[p..p + n + 1] == s[p..p + n] + [s[p + n]]
  {
  }

  /** A slice is its two halves around any point between its ends. */
  lemma SliceSplit(s: string, i: nat, p: nat, e: nat)
    requires i <= p <= e <= |s|
    ensures s[i..e] == s[i..p] + s[p..e]
  {
  }

  lemma JpDateTextParts(y: string, m: string, d: string)
    ensures var t := JpDateText(y, m, d);
      var a, b := |y|, |m|;
      && |t| == a + b + |d| + 3
      && t[..a + 1] == y + "年"
      && t[a + 1..a + b + 2] == m + "月"
      && t[a + b + 2..|t|] == d + "日"
  {
    var t := JpDateText(y, m, d);
    assert t == (y + "年") + (m + "月") + (d + "日");
  }

  /** The three groups of a date text found at `i` read back as its parts. */
  lemma JpPartsAt(s: string, i: nat, y: string, m: string, d: string)
    requires Occurs(JpDateText(y, m, d), s, i)
    ensures i + |y| + |m| + |d| + 3 <= |s|
    ensures JpYear(s, i, |y|) == y
    ensures JpMonth(s, i, |y|, |m|) == m
    ensures JpDay(s, i, |y|, |m|, |d|) == d
  {
    var t := JpDateText(y, m, d);
    JpDateTextParts(y, m, d);
    var a, b, c := |y|, |m|, |d|;
    OccursSlice(t, s, i, 0, a);
    assert t[0..a] == (y + "年")[..a] == y;
    OccursSlice(t, s, i, a + 1, a + 1 + b);
    assert t[a + 1..a + 1 + b] == (m + "月")[..b] == m;
    OccursSlice(t, s, i, a + b + 2, a + b + 2 + c);
    assert t[a + b + 2..a + b + 2 + c] == (d + "日")[..c] == d;
  }

  /** Any front-end date text at `i` is the one `JpDateAt` finds. */
  lemma JpDateAtComplete(s: string, i: nat, y: string, m: string, d: string)
    requires IsDigitString(y) && IsDigitString(m) && IsDigitString(d)
    requires Occurs(JpDateText(y, m, d), s, i)
    ensures JpDateAt(s, i) == Some((|y|, |m|, |d|))
  {
    JpDateGroups(s, i, y, m, d);
    JpDateAtFound(s, i, |y|, |m|, |d|);
  }

  lemma JpDateGroups(s: string, i: nat, y: string, m: string, d: string)
    requires IsDigitString(y) && IsDigitString(m) && IsDigitString(d)
    requires Occurs(JpDateText(y, m, d), s, i)
    ensures GroupAt(s, i, '年') && DigitRun(s, i) == |y|
    ensures GroupAt(s, i + |y| + 1, '月') && DigitRun(s, i + |y| + 1) == |m|
    ensures GroupAt(s, i + |y| + |m| + 2, '日') && DigitRun(s, i + |y| + |m| + 2) == |d|
  {
    JpYearGroup(s, i, y, m, d);
    JpMonthGroup(s, i, y, m, d);
    JpDayGroup(s, i, y, m, d);
  }

  lemma JpYearGroup(s: string, i: nat, y: string, m: string, d: string)
    requires IsDigitString(y) && Occurs(JpDateText(y, m, d), s, i)
    ensures GroupAt(s, i, '年') && DigitRun(s, i) == |y|
  {
    JpTextPieces(y, m, d);
    GroupInText(JpDateText(y, m, d), s, i, 0, i, y, '年');
  }

  lemma JpMonthGroup(s: string, i: nat, y: string, m: string, d: string)
    requires IsDigitString(m) && Occurs(JpDateText(y, m, d), s, i)
    ensures GroupAt(s, i + |y| + 1, '月') && DigitRun(s, i + |y| + 1) == |m|
  {
    JpTextPieces(y, m, d);
    GroupInText(JpDateText(y, m, d), s, i, |y| + 1, i + |y| + 1, m, '月');
  }

  lemma JpDayGroup(s: string, i: nat, y: string, m: string, d: string)
    requires IsDigitString(d) && Occurs(JpDateText(y, m, d), s, i)
    ensures GroupAt(s, i + |y| + |m| + 2, '日') && DigitRun(s, i + |y| + |m| + 2) == |d|
  {
    JpTextPieces(y, m, d);
    GroupInText(JpDateText(y, m, d), s, i, |y| + |m| + 2, i + |y| + |m| + 2, d, '日');
  }

  /** The three pieces of a date text, each a group and its marker, at
      the offsets the groups are read from. */
  lemma JpTextPieces(y: string, m: string, d: string)
    ensures var t := JpDateText(y, m, d);
      && |t| == |y| + |m| + |d| + 3
      && t[0..0 + |y| + 1] == y + "年"
      && t[|y| + 1..|y| + 1 + |m| + 1] == m + "月"
      && t[|y| + |m| + 2..|y| + |m| + 2 + |d| + 1] == d + "日"
  {
    var t := JpDateText(y, m, d);
    JpDateTextParts(y, m, d);
    assert t[0..0 + |y| + 1] == t[..|y| + 1];
    assert t[|y| + |m| + 2..|y| + |m| + 2 + |d| + 1] == t[|y| + |m| + 2..|t|];
  }

  /** A digit group `g` followed by `x` inside a text that occurs at `i`. */
  lemma GroupInText(t: string, s: string, i: nat, a: nat, p: nat, g: string, x: char)
    requires Occurs(t, s, i) && a + |g| + 1 <= |t| && t[a..a + |g| + 1] == g + [x]
    requires !IsDigit(x) && IsDigitString(g) && p == i + a
    ensures GroupAt(s, p, x) && DigitRun(s, p) == |g|
  {
    OccursPart(t, s, i, a, a + |g| + 1);
    GroupAtComplete(s, i + a, g, x);
  }
}
