/** String operations the scrapers and the front end rely on, stated once:
    Python's `strip`, decimal digits and zero padding (`f"{n:03d}"`,
    `padStart(3, "0")`), `str.replace`, `str.split` / `str.join`,
    Python's string ordering with the sorted insertion that `sorted(set)`
    amounts to, `os.path.join`, and a leftmost search that every regular
    expression of the sources is built on. */
module Text {
  import opened Values

  // ---------------------------------------------------------------------
  // Whitespace and strip
  // ---------------------------------------------------------------------

  /** The characters Python's `str.strip()` removes (`str.isspace`). */
  predicate IsSpace(c: char) {
    c == ' ' || ('\t' <= c <= '\r') || ('\U{001c}' <= c <= '\U{001f}') ||
    c == '\U{0085}' || c == '\U{00a0}' || c == '\U{1680}' || ('\U{2000}' <= c <= '\U{200a}') ||
    c == '\U{2028}' || c == '\U{2029}' || c == '\U{202f}' || c == '\U{205f}' || c == '\U{3000}'
  }

  predicate AllSpace(s: string) {
    forall i :: 0 <= i < |s| ==> IsSpace(s[i])
  }

  /** `s.lstrip()`: the suffix left after dropping leading whitespace. */
  function StripLeft(s: string): (r: string)
    ensures |r| <= |s| && r == s[|s| - |r|..]
    ensures AllSpace(s[..|s| - |r|])
    ensures r == [] || !IsSpace(r[0])
    decreases |s|
  {
    if s != [] && IsSpace(s[0]) then
      var r := StripLeft(s[1..]);
      assert s[..|s| - |r|] == [s[0]] + s[1..][..|s[1..]| - |r|];
      r
    else s
  }

  /** `s.rstrip()`: the prefix left after dropping trailing whitespace. */
  function StripRight(s: string): (r: string)
    ensures |r| <= |s| && r == s[..|r|]
    ensures AllSpace(s[|r|..])
    ensures r == [] || !IsSpace(r[|r| - 1])
    decreases |s|
  {
    if s != [] && IsSpace(s[|s| - 1]) then
      var r := StripRight(s[..|s| - 1]);
      assert s[|r|..] == s[..|s| - 1][|r|..] + [s[|s| - 1]];
      r
    else s
  }

  /** `s.strip()`: `s` without its leading and trailing whitespace. It is
      empty exactly when `s` is all whitespace, and otherwise starts and
      ends with a non-space character. */
  function Strip(s: string): (r: string)
    ensures exists i, j :: 0 <= i <= j <= |s| && r == s[i..j] && AllSpace(s[..i]) && AllSpace(s[j..])
    ensures r == [] <==> AllSpace(s)
    ensures r != [] ==> !IsSpace(r[0]) && !IsSpace(r[|r| - 1])
  {
    var l := StripLeft(s);
    var r := StripRight(l);
    StripPieces(s, l, r);
    r
  }

  /** A prefix `r` of a suffix `l` of `s`, with only whitespace around
      them, is `s` less whitespace at both ends. */
  lemma StripPieces(s: string, l: string, r: string)
    requires |l| <= |s| && l == s[|s| - |l|..] && AllSpace(s[..|s| - |l|])
    requires |r| <= |l| && r == l[..|r|] && AllSpace(l[|r|..])
    ensures exists i, j :: 0 <= i <= j <= |s| && r == s[i..j] && AllSpace(s[..i]) && AllSpace(s[j..])
    ensures r == [] ==> AllSpace(s)
  {
    if r == [] {
      assert s == s[..|s| - |l|] + l;
      assert l == l[|r|..];
    }
    var i := |s| - |l|;
    assert s[i + |r|..] == l[|r|..];
    assert r == s[i..i + |r|];
  }

  /** The text `get_text(strip=True)` yields is already stripped. */
  predicate Stripped(s: string) {
    s == [] || (!IsSpace(s[0]) && !IsSpace(s[|s| - 1]))
  }

  lemma {:induction false} StripOfStripped(s: string)
    requires Stripped(s)
    ensures Strip(s) == s
  {
    if s != [] {
      assert StripLeft(s) == s;
      assert StripRight(s) == s;
    }
  }

  /** `s.strip()` is a contiguous piece of `s`. */
  lemma StripSlice(s: string) returns (a: nat)
    ensures a + |Strip(s)| <= |s| && Strip(s) == s[a..a + |Strip(s)|]
  {
    var l := StripLeft(s);
    a := |s| - |l|;
    assert Strip(s) == l[..|Strip(s)|];
  }

  /** What does not occur in `s` does not occur in `s.strip()`. */
  lemma StripKeepsAbsent(s: string, pat: string)
    requires !Contains(s, pat)
    ensures !Contains(Strip(s), pat)
  {
    var a := StripSlice(s);
    if Contains(Strip(s), pat) {
      ContainsInSlice(s, a, a + |Strip(s)|, pat);
    }
  }

  lemma AllSpaceConcat(a: string, b: string)
    ensures AllSpace(a + b) <==> AllSpace(a) && AllSpace(b)
  {
    if AllSpace(a + b) {
      forall i | 0 <= i < |a| ensures IsSpace(a[i]) {
        assert a[i] == (a + b)[i];
      }
      forall i | 0 <= i < |b| ensures IsSpace(b[i]) {
        assert b[i] == (a + b)[|a| + i];
      }
    }
    if AllSpace(a) && AllSpace(b) {
      forall i | 0 <= i < |a + b| ensures IsSpace((a + b)[i]) {
        if i >= |a| {
          assert (a + b)[i] == b[i - |a|];
        }
      }
    }
  }

  // ---------------------------------------------------------------------
  // Decimal digits
  // ---------------------------------------------------------------------

  predicate IsDigit(c: char) {
    '0' <= c <= '9'
  }

  predicate AllDigits(s: string) {
    forall i :: 0 <= i < |s| ==> IsDigit(s[i])
  }

  /** Python's `str.isdigit()` on ASCII text: non-empty and all digits. */
  predicate IsDigitString(s: string) {
    s != [] && AllDigits(s)
  }

  function DigitChar(d: nat): (c: char)
    requires d < 10
    ensures IsDigit(c) && c as int - '0' as int == d
  {
    ('0' as int + d) as char
  }

  /** The length of the run of digits that starts at position `i`. */
  function DigitRun(s: string, i: nat): (n: nat)
    requires i <= |s|
    ensures i + n <= |s|
    ensures i + n == |s| || !IsDigit(s[i + n])
    decreases |s| - i
  {
    if i < |s| && IsDigit(s[i]) then 1 + DigitRun(s, i + 1) else 0
  }

  /** Every character of the run is a digit. */
  lemma {:induction false} DigitRunDigits(s: string, i: nat)
    requires i <= |s|
    ensures AllDigits(s[i..i + DigitRun(s, i)])
    decreases |s| - i
  {
    if i < |s| && IsDigit(s[i]) {
      DigitRunDigits(s, i + 1);
      var n := DigitRun(s, i);
      assert s[i..i + n] == [s[i]] + s[i + 1..i + n];
    }
  }

  /** `int(s)` / `parseInt(s)` on a string of decimal digits. */
  function ParseNat(s: string): nat
    requires AllDigits(s)
  {
    if s == [] then 0
    else ParseNat(s[..|s| - 1]) * 10 + (s[|s| - 1] as int - '0' as int)
  }

  /** `str(n)` / `n.toString()`: the canonical decimal numeral of `n`,
      which reads back as `n` and has no leading zero. */
  function NatToString(n: nat): (r: string)
    ensures IsDigitString(r) && ParseNat(r) == n
    ensures r[0] == '0' ==> n == 0
    decreases n
  {
    if n < 10 then [DigitChar(n)]
    else
      var r := NatToString(n / 10) + [DigitChar(n % 10)];
      assert r[..|r| - 1] == NatToString(n / 10);
      r
  }

  function Repeat(c: char, n: nat): (r: string)
    ensures |r| == n && forall i :: 0 <= i < n ==> r[i] == c
  {
    if n == 0 then [] else [c] + Repeat(c, n - 1)
  }

  /** Left padding with '0' up to `width` characters (`padStart(width, "0")`). */
  function ZeroPad(s: string, width: nat): (r: string)
    ensures |r| == if |s| < width then width else |s|
    ensures r[|r| - |s|..] == s
    ensures forall i :: 0 <= i < |r| - |s| ==> r[i] == '0'
  {
    if |s| < width then Repeat('0', width - |s|) + s else s
  }

  lemma {:induction false} LeadingZerosIgnored(z: string, s: string)
    requires AllDigits(s) && forall i :: 0 <= i < |z| ==> z[i] == '0'
    ensures AllDigits(z + s) && ParseNat(z + s) == ParseNat(s)
    decreases |s|
  {
    if s == [] {
      assert z + s == z;
      AllZerosParse(z);
    } else {
      var t := s[..|s| - 1];
      LeadingZerosIgnored(z, t);
      assert (z + s)[..|z + s| - 1] == z + t;
    }
  }

  lemma {:induction false} AllZerosParse(z: string)
    requires forall i :: 0 <= i < |z| ==> z[i] == '0'
    ensures AllDigits(z) && ParseNat(z) == 0
    decreases |z|
  {
    if z != [] {
      AllZerosParse(z[..|z| - 1]);
    }
  }

  /** `str(n).zfill(width)` / `String(n).padStart(width, "0")` for a
      non-negative `n`: digits only, at least `width` of them, reading back
      as `n`. */
  function PadNat(n: nat, width: nat): (r: string)
    ensures IsDigitString(r) && |r| >= width
  {
    var d := NatToString(n);
    var r := ZeroPad(d, width);
    LeadingZerosIgnored(r[..|r| - |d|], d);
    assert r == r[..|r| - |d|] + d;
    r
  }

  /** The padded numeral reads back as the number. */
  lemma PadNatValue(n: nat, width: nat)
    ensures ParseNat(PadNat(n, width)) == n
  {
    var d := NatToString(n);
    var r := ZeroPad(d, width);
    LeadingZerosIgnored(r[..|r| - |d|], d);
    assert r == r[..|r| - |d|] + d;
  }

  /** Strings that differ only in their middle piece differ. */
  lemma MiddleDiffers(pre: string, x: string, y: string, post: string)
    requires x != y
    ensures pre + x + post != pre + y + post
  {
    if |x| == |y| {
      assert (pre + x + post)[|pre|..|pre| + |x|] == x;
      assert (pre + y + post)[|pre|..|pre| + |y|] == y;
    }
  }

  /** A number below 1000 has at most three digits, so padding it to
      three gives exactly three characters. */
  lemma PadNatThree(n: nat)
    requires n < 1000
    ensures |PadNat(n, 3)| == 3
  {
    if n >= 10 {
      assert NatToString(n) == NatToString(n / 10) + [DigitChar(n % 10)];
      if n / 10 >= 10 {
        assert NatToString(n / 10) == NatToString(n / 100) + [DigitChar(n / 10 % 10)];
      }
    }
  }

  /** Python's `f"{n:0{width}d}"`: the numeral of `n` padded with zeros to
      `width` characters, a minus sign counted in the width. A non-negative
      `n` comes out as its padded numeral; a negative one as '-' followed by
      the padded digits of `-n`. */
  function FormatPadded(n: int, width: nat): (r: string)
    ensures n >= 0 ==> IsDigitString(r)
    ensures n < 0 ==> |r| >= 2 && r[0] == '-' && IsDigitString(r[1..])
    ensures |r| >= width
  {
    if n >= 0 then PadNat(n, width)
    else
      var p := PadNat(-n, if width == 0 then 0 else width - 1);
      assert ("-" + p)[1..] == p;
      "-" + p
  }

  /** The formatted numeral reads back as the number: its digits, after
      the minus sign for a negative one. */
  lemma FormatPaddedValue(n: int, width: nat)
    ensures n >= 0 ==> ParseNat(FormatPadded(n, width)) == n
    ensures n < 0 ==> ParseNat(FormatPadded(n, width)[1..]) == -n
  {
    if n >= 0 {
      PadNatValue(n, width);
    } else {
      var p := PadNat(-n, if width == 0 then 0 else width - 1);
      PadNatValue(-n, if width == 0 then 0 else width - 1);
      assert ("-" + p)[1..] == p;
    }
  }

  // ---------------------------------------------------------------------
  // Occurrences, search, replace
  // ---------------------------------------------------------------------

  /** `pat` occurs in `s` starting at position `i`. */
  predicate Occurs(pat: string, s: string, i: nat) {
    i + |pat| <= |s| && s[i..i + |pat|] == pat
  }

  /** Python's `pat in s` / JavaScript's `s.includes(pat)`. */
  predicate Contains(s: string, pat: string) {
    exists i :: 0 <= i <= |s| && Occurs(pat, s, i)
  }

  /** What does not occur in a string does not occur in any piece of it. */
  lemma ContainsInSlice(s: string, a: nat, b: nat, pat: string)
    requires a <= b <= |s| && Contains(s[a..b], pat)
    ensures Contains(s, pat)
  {
    var k :| 0 <= k <= |s[a..b]| && Occurs(pat, s[a..b], k);
    forall j | 0 <= j < |pat| ensures s[a + k + j] == pat[j] {
      assert s[a..b][k..k + |pat|][j] == pat[j];
    }
    assert s[a + k..a + k + |pat|] == pat;
    assert Occurs(pat, s, a + k);
  }

  /** The leftmost position in `[from, n)` at which the matcher `at`
      succeeds, with what it matched there: the "leftmost match" rule of
      `re.search` and `String.prototype.match`. */
  function Search<T>(n: nat, at: nat -> Option<T>, from: nat): (r: Option<(nat, T)>)
    ensures r.Some? ==> from <= r.value.0 < n && at(r.value.0) == Some(r.value.1)
    ensures forall k :: from <= k < n && (r.None? || k < r.value.0) ==> at(k).None?
    decreases n - from
  {
    if from >= n then None
    else if at(from).Some? then Some((from, at(from).value))
    else Search(n, at, from + 1)
  }

  /** Python's `s.find(pat)` as an option: the leftmost occurrence. */
  function FindFirst(s: string, pat: string): (r: Option<nat>)
    requires pat != []
    ensures r.Some? ==> Occurs(pat, s, r.value)
    ensures forall k :: 0 <= k < |s| && (r.None? || k < r.value) ==> !Occurs(pat, s, k)
    ensures r.None? <==> !Contains(s, pat)
  {
    var at := (i: nat) => if Occurs(pat, s, i) then Some(i) else None;
    var m := Search(|s|, at, 0);
    assert forall k :: 0 <= k < |s| ==> (at(k).None? <==> !Occurs(pat, s, k));
    if m.Some? then Some(m.value.0) else None
  }

  /** `s.split(sep)[0]`: everything before the first occurrence of `sep`.
      The result is a prefix of `s` free of `sep`, and it is all of `s`
      unless `sep` follows it. */
  function BeforeFirst(s: string, sep: string): (r: string)
    requires sep != []
    ensures |r| <= |s| && r == s[..|r|]
    ensures !Contains(r, sep)
    ensures r == s <==> !Contains(s, sep)
    ensures r != s ==> Occurs(sep, s, |r|)
  {
    match FindFirst(s, sep)
    case Some(i) =>
      assert !Contains(s[..i], sep) by {
        forall k | 0 <= k <= i && Occurs(sep, s[..i], k) ensures false {
          assert s[..i][k..k + |sep|] == s[k..k + |sep|];
          assert Occurs(sep, s, k);
        }
      }
      s[..i]
    case None => s
  }

  /** Python's `s.replace(pat, rep)`: every non-overlapping occurrence of
      `pat`, scanning from the left, is replaced by `rep`. */
  function ReplaceAll(s: string, pat: string, rep: string): string
    requires pat != []
    decreases |s|
  {
    if |s| < |pat| then s
    else if s[..|pat|] == pat then rep + ReplaceAll(s[|pat|..], pat, rep)
    else [s[0]] + ReplaceAll(s[1..], pat, rep)
  }

  /** With no occurrence of `pat`, `replace` returns the string unchanged. */
  lemma {:induction false} ReplaceAbsent(s: string, pat: string, rep: string)
    requires pat != [] && !Contains(s, pat)
    ensures ReplaceAll(s, pat, rep) == s
    decreases |s|
  {
    if |s| >= |pat| {
      assert !Occurs(pat, s, 0);
      assert !Contains(s[1..], pat) by {
        forall k | 0 <= k <= |s[1..]| && Occurs(pat, s[1..], k) ensures false {
          assert s[1..][k..k + |pat|] == s[k + 1..k + 1 + |pat|];
          assert Occurs(pat, s, k + 1);
        }
      }
      ReplaceAbsent(s[1..], pat, rep);
    }
  }

  /** Characters that cannot start `pat` pass through `replace` untouched. */
  lemma {:induction false} ReplaceSkips(x: string, y: string, pat: string, rep: string)
    requires pat != [] && forall i :: 0 <= i < |x| ==> x[i] != pat[0]
    ensures ReplaceAll(x + y, pat, rep) == x + ReplaceAll(y, pat, rep)
    decreases |x|
  {
    if x != [] {
      var s := x + y;
      if |s| >= |pat| {
        assert s[..|pat|] != pat by { assert s[0] == x[0]; }
        assert s[1..] == x[1..] + y;
        assert x == [x[0]] + x[1..];
        ReplaceSkips(x[1..], y, pat, rep);
      } else {
        assert |x + y| < |pat| && |y| < |pat|;
      }
    } else {
      assert x + y == y;
    }
  }

  /** A string that is a prefix `p` followed by one `pat`, where `pat` does
      not start anywhere inside `p + pat` before `p` ends, becomes `p + rep`. */
  lemma {:induction false} ReplaceTrailing(p: string, pat: string, rep: string)
    requires pat != []
    requires forall k :: 0 <= k < |p| ==> !Occurs(pat, p + pat, k)
    ensures ReplaceAll(p + pat, pat, rep) == p + rep
    decreases |p|
  {
    var s := p + pat;
    if p == [] {
      assert s == pat && s[..|pat|] == pat && s[|pat|..] == [];
    } else {
      var t := p[1..] + pat;
      assert t == s[1..];
      assert !Occurs(pat, s, 0);
      ReplaceAllSkip(s, pat, rep);
      forall k | 0 <= k < |p[1..]| ensures !Occurs(pat, t, k) {
        assert !Occurs(pat, s, k + 1);
        if k + |pat| <= |t| {
          assert t[k..k + |pat|] == s[k + 1..k + 1 + |pat|];
        }
      }
      ReplaceTrailing(p[1..], pat, rep);
      assert p == [p[0]] + p[1..];
    }
  }

  /** Where `pat` does not start at the front, `replace` keeps the first
      character and carries on with the rest. */
  lemma ReplaceAllSkip(s: string, pat: string, rep: string)
    requires pat != [] && s != [] && !Occurs(pat, s, 0)
    ensures ReplaceAll(s, pat, rep) == [s[0]] + ReplaceAll(s[1..], pat, rep)
  {
    if |s| >= |pat| {
      assert s[0..|pat|] == s[..|pat|];
    }
  }

  /** A string starting with `pat` has that occurrence replaced first. */
  lemma ReplaceAllPrefix(pat: string, rest: string, rep: string)
    requires pat != []
    ensures ReplaceAll(pat + rest, pat, rep) == rep + ReplaceAll(rest, pat, rep)
  {
    var s := pat + rest;
    assert s[..|pat|] == pat && s[|pat|..] == rest;
  }

  /** JavaScript's `s.replace(pat, rep)` with a string pattern: only the
      leftmost occurrence is replaced. */
  function ReplaceFirst(s: string, pat: string, rep: string): (r: string)
    requires pat != []
    ensures !Contains(s, pat) ==> r == s
    ensures Contains(s, pat) ==>
      exists k: nat :: (Occurs(pat, s, k)
                        && (forall j: nat :: j < k ==> !Occurs(pat, s, j))
                        && r == s[..k] + rep + s[k + |pat|..])
  {
    match FindFirst(s, pat)
    case Some(k) => s[..k] + rep + s[k + |pat|..]
    case None => s
  }

  /** A string that starts with `pat` loses exactly that prefix. */
  lemma ReplaceFirstPrefix(pat: string, rest: string, rep: string)
    requires pat != []
    ensures ReplaceFirst(pat + rest, pat, rep) == rep + rest
  {
    var s := pat + rest;
    assert Occurs(pat, s, 0);
    assert FindFirst(s, pat) == Some(0);
    assert s[|pat|..] == rest;
  }

  // ---------------------------------------------------------------------
  // join and split
  // ---------------------------------------------------------------------

  /** `sep.join(parts)` / `parts.join(sep)`. */
  function Join(parts: seq<string>, sep: string): string
    decreases |parts|
  {
    if parts == [] then ""
    else if |parts| == 1 then parts[0]
    else parts[0] + sep + Join(parts[1..], sep)
  }

  /** A joined string with a non-blank first part is not blank. */
  lemma JoinFirstNotBlank(parts: seq<string>, sep: string)
    requires parts != [] && !AllSpace(parts[0])
    ensures !AllSpace(Join(parts, sep))
  {
    var k :| 0 <= k < |parts[0]| && !IsSpace(parts[0][k]);
    assert Join(parts, sep)[k] == parts[0][k];
  }

  /** Joined with a whitespace separator, the result is all whitespace
      exactly when every part is. */
  lemma {:induction false} JoinAllSpace(parts: seq<string>, sep: string)
    requires AllSpace(sep)
    ensures AllSpace(Join(parts, sep)) <==> forall i :: 0 <= i < |parts| ==> AllSpace(parts[i])
    decreases |parts|
  {
    if |parts| > 1 {
      JoinAllSpace(parts[1..], sep);
      AllSpaceConcat(parts[0] + sep, Join(parts[1..], sep));
      AllSpaceConcat(parts[0], sep);
      assert forall i :: 0 < i < |parts| ==> parts[i] == parts[1..][i - 1];
    }
  }

  function CountChar(s: string, c: char): nat
    decreases |s|
  {
    if s == [] then 0 else (if s[0] == c then 1 else 0) + CountChar(s[1..], c)
  }

  /** `s.split(c)` for a one-character separator: one piece per separator
      plus one, none of them holding the separator. */
  function Split(s: string, c: char): (r: seq<string>)
    ensures |r| == CountChar(s, c) + 1
    ensures forall i :: 0 <= i < |r| ==> c !in r[i]
    decreases |s|
  {
    if s == [] then [""]
    else
      var rest := Split(s[1..], c);
      if s[0] == c then [""] + rest
      else [[s[0]] + rest[0]] + rest[1..]
  }

  /** Joining the pieces of a split with the separator gives the string back. */
  lemma {:induction false} JoinSplit(s: string, c: char)
    ensures Join(Split(s, c), [c]) == s
    decreases |s|
  {
    if s != [] {
      var rest := Split(s[1..], c);
      JoinSplit(s[1..], c);
      if s[0] == c {
        assert Split(s, c) == [""] + rest;
        assert ([""] + rest)[1..] == rest;
        assert s == [c] + s[1..];
      } else {
        var r := Split(s, c);
        assert r == [[s[0]] + rest[0]] + rest[1..];
        if |rest| == 1 {
          assert s == [s[0]] + s[1..];
        } else {
          assert r[1..] == rest[1..];
          assert s == [s[0]] + s[1..];
        }
      }
    }
  }

  /** A string without the separator splits into itself alone. */
  lemma {:induction false} SplitNone(s: string, c: char)
    requires c !in s
    ensures Split(s, c) == [s]
    decreases |s|
  {
    if s != [] {
      assert c !in s[1..] by {
        forall i | 0 <= i < |s[1..]| ensures s[1..][i] != c {
          assert s[1..][i] == s[i + 1];
        }
      }
      SplitNone(s[1..], c);
      assert [s[0]] + s[1..] == s;
    }
  }

  /** A separator-free piece followed by the separator splits off as the
      first piece. */
  lemma {:induction false} SplitFirst(x: string, y: string, c: char)
    requires c !in x
    ensures Split(x + [c] + y, c) == [x] + Split(y, c)
    decreases |x|
  {
    var s := x + [c] + y;
    if x == [] {
      assert s == [c] + y && s[1..] == y;
    } else {
      assert s[0] == x[0] != c;
      assert s[1..] == x[1..] + [c] + y;
      assert c !in x[1..] by {
        forall i | 0 <= i < |x[1..]| ensures x[1..][i] != c {
          assert x[1..][i] == x[i + 1];
        }
      }
      SplitFirst(x[1..], y, c);
      assert [x[0]] + x[1..] == x;
    }
  }

  // ---------------------------------------------------------------------
  // Python's ordering of strings, and sorted insertion
  // ---------------------------------------------------------------------

  /** Python's `a < b` on strings: code point by code point, a proper prefix
      coming first. */
  predicate LexLess(a: string, b: string)
    decreases |a|
  {
    if a == [] then b != []
    else b != [] && (a[0] < b[0] || (a[0] == b[0] && LexLess(a[1..], b[1..])))
  }

  lemma LexIrreflexive(a: string)
    ensures !LexLess(a, a)
  {
  }

  lemma {:induction false} LexTransitive(a: string, b: string, c: string)
    requires LexLess(a, b) && LexLess(b, c)
    ensures LexLess(a, c)
    decreases |a|
  {
    if a != [] && a[0] == b[0] && b[0] == c[0] {
      LexTransitive(a[1..], b[1..], c[1..]);
    }
  }

  lemma {:induction false} LexTotal(a: string, b: string)
    requires a != b
    ensures LexLess(a, b) || LexLess(b, a)
    decreases |a|
  {
    if a != [] && b != [] && a[0] == b[0] {
      assert a == [a[0]] + a[1..] && b == [b[0]] + b[1..];
      LexTotal(a[1..], b[1..]);
    }
  }

  /** A common prefix does not change how two strings compare. */
  lemma {:induction false} LexCommonPrefix(p: string, a: string, b: string)
    ensures LexLess(p + a, p + b) <==> LexLess(a, b)
    decreases |p|
  {
    if p != [] {
      assert (p + a)[1..] == p[1..] + a && (p + b)[1..] == p[1..] + b;
      LexCommonPrefix(p[1..], a, b);
    } else {
      assert p + a == a && p + b == b;
    }
  }

  /** Strictly increasing: sorted and free of duplicates. */
  predicate StrictlySorted(xs: seq<string>) {
    forall i, j :: 0 <= i < j < |xs| ==> LexLess(xs[i], xs[j])
  }

  lemma BelowHeadBelowAll(x: string, xs: seq<string>)
    requires StrictlySorted(xs) && xs != [] && LexLess(x, xs[0])
    ensures forall j :: 0 <= j < |xs| ==> LexLess(x, xs[j])
  {
    forall j | 0 < j < |xs| ensures LexLess(x, xs[j]) {
      LexTransitive(x, xs[0], xs[j]);
    }
  }

  /** Adding `x` to the sorted, duplicate-free list `xs`: the result is
      again sorted and duplicate-free and holds exactly `xs` and `x`. */
  function InsertSorted(xs: seq<string>, x: string): (r: seq<string>)
    requires StrictlySorted(xs)
    ensures StrictlySorted(r)
    ensures forall y :: y in r <==> y in xs || y == x
    decreases |xs|
  {
    if xs == [] then [x]
    else if x == xs[0] then xs
    else if LexLess(x, xs[0]) then
      BelowHeadBelowAll(x, xs);
      [x] + xs
    else
      LexTotal(x, xs[0]);
      var rest := InsertSorted(xs[1..], x);
      assert forall y :: y in rest ==> LexLess(xs[0], y) by {
        forall y | y in rest ensures LexLess(xs[0], y) {
          if y != x {
            var k :| 0 <= k < |xs[1..]| && xs[1..][k] == y;
            assert xs[k + 1] == y;
          }
        }
      }
      assert forall y :: y in xs <==> y == xs[0] || y in xs[1..] by {
        assert xs == [xs[0]] + xs[1..];
      }
      [xs[0]] + rest
  }

  /** The sorted, duplicate-free list of a collection of strings given in
      any order, as Python's `sorted(set(...))` produces it. */
  function SortedSet(xs: seq<string>): (r: seq<string>)
    ensures StrictlySorted(r)
    ensures forall y :: y in r <==> y in xs
    decreases |xs|
  {
    if xs == [] then [] else InsertSorted(SortedSet(xs[..|xs| - 1]), xs[|xs| - 1])
  }

  // ---------------------------------------------------------------------
  // Paths
  // ---------------------------------------------------------------------

  /** `os.path.join(a, b)` on POSIX: an absolute `b` replaces `a`,
      otherwise one '/' is put between them unless `a` is empty or
      already ends with one. */
  function PathJoin(a: string, b: string): (r: string)
    ensures |b| > 0 && b[0] == '/' ==> r == b
    ensures (|b| == 0 || b[0] != '/') && a != [] && a[|a| - 1] != '/' ==> r == a + "/" + b
    ensures (|b| == 0 || b[0] != '/') && (a == [] || a[|a| - 1] == '/') ==> r == a + b
  {
    if |b| > 0 && b[0] == '/' then b
    else if a == [] || a[|a| - 1] == '/' then a + b
    else a + "/" + b
  }
}
