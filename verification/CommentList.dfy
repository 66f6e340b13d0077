/** The pure helpers of the comment list view
    (src/components/CommentList.tsx): the avatar initial, the age and
    gender chip, the lines of a comment body, and where dividers go
    between the comments of the list. */
module CommentList {
  import opened Values
  import opened Text
  import opened Patterns
  import opened CommentScraper

  /** Upper case of a character, for the ASCII letters. */
  function ToUpper(c: char): (u: char)
    ensures !('a' <= u <= 'z')
    ensures 'a' <= c <= 'z' ==> 'A' <= u <= 'Z' && u as int == c as int - 32
    ensures !('a' <= c <= 'z') ==> u == c
  {
    if 'a' <= c <= 'z' then (c as int - 32) as char else c
  }

  /** `getInitials`: the first character of the name, upper-cased; the
      empty string for an empty name. */
  function GetInitials(name: string): (r: string)
    ensures |r| <= 1 && (r == [] <==> name == [])
    ensures name != [] ==> r[0] == ToUpper(name[0])
  {
    if name == [] then "" else [ToUpper(name[0])]
  }

  /** `getAgeGenderText`: the present (non-empty) ones of age and gender,
      age first, joined with a space; `null` when neither is present. */
  function GetAgeGenderText(age: Option<string>, gender: Option<string>): (r: Option<string>)
    ensures r.None? <==> !Truthy(age) && !Truthy(gender)
    ensures Truthy(age) && Truthy(gender) ==> r == Some(age.value + " " + gender.value)
    ensures Truthy(age) && !Truthy(gender) ==> r == age
    ensures !Truthy(age) && Truthy(gender) ==> r == gender
  {
    var parts := (if Truthy(age) then [age.value] else []) + (if Truthy(gender) then [gender.value] else []);
    assert Truthy(age) && Truthy(gender) ==>
      parts[1..] == [gender.value] && Join(parts, " ") == age.value + " " + Join([gender.value], " ");
    if |parts| > 0 then Some(Join(parts, " ")) else None
  }

  /** The chip of a scraped comment is missing exactly when its meta line
      names neither an age bucket nor a gender. */
  lemma ChipOfParsedMeta(meta: Option<string>)
    ensures var (age, gender) := ParseAgeGender(meta);
      GetAgeGenderText(age, gender).None? <==>
        !Truthy(meta) ||
        (&& (forall k, t :: IsAgeBucket(t) ==> !Occurs(t, meta.value, k))
         && !Contains(meta.value, Male) && !Contains(meta.value, Female))
  {
    var (age, gender) := ParseAgeGender(meta);
    if age.Some? {
      assert IsAgeBucket(age.value) && age.value != "";
    }
  }

  /** `formatContent`: one line per '\n'-separated segment. */
  function FormatContent(content: string): (lines: seq<string>)
    ensures |lines| == CountChar(content, '\n') + 1
    ensures forall i :: 0 <= i < |lines| ==> '\n' !in lines[i]
    ensures Join(lines, "\n") == content
  {
    JoinSplit(content, '\n');
    Split(content, '\n')
  }

  // ---------------------------------------------------------------------
  // Dividers
  // ---------------------------------------------------------------------

  /** One row of the rendered list: the comment at an index, or a divider. */
  datatype Row = Item(index: nat) | Divider

  /** The rows for the comments at indexes `i..n-1`: each comment,
      followed by a divider unless it is the last. */
  function RowsFrom(i: nat, n: nat): (r: seq<Row>)
    ensures i >= n ==> r == []
    ensures i < n ==> |r| == 2 * (n - i) - 1
    ensures forall k :: 0 <= k < |r| ==> (k % 2 == 1 ==> r[k] == Divider) && (k % 2 == 0 ==> r[k] == Item(i + k / 2))
    decreases n - i
  {
    if i >= n then []
    else if i == n - 1 then [Item(i)]
    else
      var rest := RowsFrom(i + 1, n);
      var r := [Item(i), Divider] + rest;
      forall k | 2 <= k < |r| ensures (k % 2 == 1 ==> r[k] == Divider) && (k % 2 == 0 ==> r[k] == Item(i + k / 2)) {
        assert r[k] == rest[k - 2];
        assert (k - 2) % 2 == k % 2 && i + 1 + (k - 2) / 2 == i + k / 2;
      }
      r
  }

  /** The rows of a list of `n` comments. */
  function Rows(n: nat): (r: seq<Row>)
    ensures n == 0 ==> r == []
    ensures n > 0 ==> |r| == 2 * n - 1
    ensures forall k :: 0 <= k < |r| ==> (r[k] == Divider <==> k % 2 == 1)
    ensures forall k :: 0 <= k < |r| && k % 2 == 0 ==> r[k] == Item(k / 2)
  {
    RowsFrom(0, n)
  }

  /** The number of dividers among some rows. */
  function DividerCount(rows: seq<Row>): (r: nat)
    decreases |rows|
  {
    if rows == [] then 0 else (if rows[0].Divider? then 1 else 0) + DividerCount(rows[1..])
  }

  /** A list of `n` comments has `n - 1` dividers (none when empty). */
  lemma {:induction false} DividersBetween(i: nat, n: nat)
    ensures DividerCount(RowsFrom(i, n)) == if i < n then n - i - 1 else 0
    decreases n - i
  {
    if i < n - 1 {
      var rest := RowsFrom(i + 1, n);
      var r := RowsFrom(i, n);
      assert r == [Item(i), Divider] + rest;
      assert r[1..] == [Divider] + rest;
      assert r[1..][1..] == rest;
      DividersBetween(i + 1, n);
    } else if i == n - 1 {
      assert RowsFrom(i, n) == [Item(i)];
      assert RowsFrom(i, n)[1..] == [];
    }
  }

  /** The rows of `n` comments hold `n - 1` dividers, one between each
      two neighbouring comments. */
  lemma DividerCountOfList(n: nat)
    requires n > 0
    ensures DividerCount(Rows(n)) == n - 1
  {
    DividersBetween(0, n);
  }
}
