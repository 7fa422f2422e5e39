/**
 * The per-row test of the header scan in `load_data`: every cell of a row is
 * turned into text, lower-cased, and the row qualifies when some cell
 * contains "date" as a substring.
 */
module CellText {

  /** The keyword the header scan looks for. */
  const Keyword: string := "date"

  /**
   * Lower-casing of one character. Only the ASCII capitals are mapped; no
   * other character lower-cases to one of the letters of `Keyword`, so this
   * is exact for the question the scan asks.
   */
  function LowerChar(c: char): (r: char)
    ensures !('A' <= r <= 'Z')
    ensures 'A' <= c <= 'Z' ==> r as int - 'a' as int == c as int - 'A' as int
    ensures !('A' <= c <= 'Z') ==> r == c
    ensures ('a' <= r <= 'z') <==> ('a' <= c <= 'z' || 'A' <= c <= 'Z')
  {
    if 'A' <= c <= 'Z' then (c as int - 'A' as int + 'a' as int) as char else c
  }

  /** `s.lower()`, character by character. */
  function ToLower(s: string): string
  {
    seq(|s|, i requires 0 <= i < |s| => LowerChar(s[i]))
  }

  /** Lower-casing twice is lower-casing once. */
  lemma LowerIdempotent(s: string)
    ensures ToLower(ToLower(s)) == ToLower(s)
  {
  }

  /** `sub` occurs in `s` starting at position `i`. */
  predicate OccursAt(s: string, sub: string, i: nat)
  {
    i + |sub| <= |s| && s[i..i + |sub|] == sub
  }

  /** Python's `sub in s` on strings. */
  predicate Contains(s: string, sub: string)
  {
    exists i: nat | i <= |s| :: OccursAt(s, sub, i)
  }

  /** The keyword, each letter in either case, starts at position `i` of `cell`. */
  predicate SpellsKeywordAt(cell: string, i: nat)
  {
    i + 4 <= |cell| &&
    (cell[i] == 'd' || cell[i] == 'D') && (cell[i + 1] == 'a' || cell[i + 1] == 'A') &&
    (cell[i + 2] == 't' || cell[i + 2] == 'T') && (cell[i + 3] == 'e' || cell[i + 3] == 'E')
  }

  /** `"date" in str(cell).lower()`. */
  predicate MentionsDate(cell: string)
  {
    Contains(ToLower(cell), Keyword)
  }

  /**
   * `any("date" in s for s in row_str)`: the generator stops at the first
   * cell that mentions the keyword; the result is whether such a cell exists.
   */
  function RowMentionsDate(cells: seq<string>): (r: bool)
    ensures r <==> exists j :: 0 <= j < |cells| && MentionsDate(cells[j])
  {
    if cells == [] then false
    else MentionsDate(cells[0]) || RowMentionsDate(cells[1..])
  }

  /**
   * The test ignores case: a cell qualifies exactly when some four
   * consecutive characters spell the keyword, each letter in either case.
   */
  lemma MentionsDateIgnoresCase(cell: string)
    ensures MentionsDate(cell) <==> exists i: nat :: SpellsKeywordAt(cell, i)
  {
    forall i: nat | i + |Keyword| <= |cell|
      ensures OccursAt(ToLower(cell), Keyword, i) == SpellsKeywordAt(cell, i)
    {
      var low := ToLower(cell);
      assert low[i..i + 4] == [LowerChar(cell[i]), LowerChar(cell[i + 1]),
                               LowerChar(cell[i + 2]), LowerChar(cell[i + 3])];
    }
  }

  /** Lower-casing a cell first does not change whether it qualifies. */
  lemma MentionsDateOfLowered(cell: string)
    ensures MentionsDate(ToLower(cell)) == MentionsDate(cell)
  {
    LowerIdempotent(cell);
  }

  /** A cell with no letter `d` in either case never qualifies. */
  lemma NoLetterDNoMention(cell: string)
    requires forall k :: 0 <= k < |cell| ==> cell[k] != 'd' && cell[k] != 'D'
    ensures !MentionsDate(cell)
  {
    var low := ToLower(cell);
    forall i: nat | i + |Keyword| <= |low|
      ensures !OccursAt(low, Keyword, i)
    {
      assert low[i..i + |Keyword|][0] == LowerChar(cell[i]);
    }
  }

  /** A capitalised keyword inside a longer label qualifies. */
  lemma ValueDateQualifies()
    ensures MentionsDate("Value DATE")
  {
    var low := ToLower("Value DATE");
    assert OccursAt(low, Keyword, 6);
  }

  /**
   * The test is a plain substring test, not a word test: a narration such
   * as "Mandate" qualifies too.
   */
  lemma SubstringNotWord()
    ensures MentionsDate("NACH Mandate")
  {
    var low := ToLower("NACH Mandate");
    assert OccursAt(low, Keyword, 8);
  }
}
