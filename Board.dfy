/** The board of frontend/src/components/Game.jsx: six rows of five cells filled one
    letter at a time, a cursor (row, col), the marks and key colours of submitted rows,
    and a status that ends the game on a win or after the sixth row. */
module Board {
  import opened Wrappers
  import opened Text
  import opened Evaluation
  import opened KeyColors
  import WordBank

  /** A grid cell: the empty string, or the one-character key that was typed. */
  datatype Cell = Blank | Letter(ch: char)

  /** `status`: null while playing, then 'won' or 'lost'. */
  datatype Status = Playing | Won | Lost

  /** What a submission leads to. A win or a loss is reported to the results endpoint
      with the attempts it carries. */
  datatype Outcome =
    | NeedFiveLetters
    | NotInWordList
    | ValidationFailed
    | Continue
    | Finished(won: bool, attempts: nat)

  /** `grid[row].join('')`: the letters of a row, blanks contributing nothing. */
  function RowWord(cells: seq<Cell>): (w: string)
    ensures (forall k :: 0 <= k < |cells| ==> cells[k].Letter?) ==>
      |w| == |cells| && forall k :: 0 <= k < |cells| ==> w[k] == cells[k].ch
  {
    if cells == [] then ""
    else (if cells[0].Letter? then [cells[0].ch] else "") + RowWord(cells[1..])
  }

  /** The guess a full row stands for, compared case-insensitively with the answer (see
      the findings in README.md for the row as typed). */
  function GuessOf(cells: seq<Cell>): (g: string)
    ensures |g| == |RowWord(cells)|
    ensures forall k :: 0 <= k < |g| ==> !IsUpper(g[k])
    ensures (forall k :: 0 <= k < |cells| ==> cells[k].Letter?) ==>
      |g| == |cells| && forall k :: 0 <= k < |cells| ==> g[k] == LowerChar(cells[k].ch)
  {
    Lower(RowWord(cells))
  }

  /** The grid with the cell at (r, k) replaced. */
  function Put(grid: seq<seq<Cell>>, r: nat, k: nat, cell: Cell): (g: seq<seq<Cell>>)
    requires r < |grid| && k < |grid[r]|
    ensures |g| == |grid| && |g[r]| == |grid[r]| && g[r][k] == cell
    ensures forall r2, k2 :: 0 <= r2 < |grid| && 0 <= k2 < |grid[r2]| && (r2, k2) != (r, k) ==>
      |g[r2]| == |grid[r2]| && g[r2][k2] == grid[r2][k2]
  {
    grid[r := grid[r][k := cell]]
  }

  /** Writing a cell back to what it held undoes the write. */
  lemma PutUndo(grid: seq<seq<Cell>>, r: nat, k: nat, cell: Cell)
    requires r < |grid| && k < |grid[r]|
    ensures Put(Put(grid, r, k, cell), r, k, grid[r][k]) == grid
  {
    var g := Put(Put(grid, r, k, cell), r, k, grid[r][k]);
    assert g[r] == grid[r];
  }

  /** A row of marks as shown: '' before the row is submitted. */
  function Shown(marks: seq<Mark>): seq<Option<Mark>> {
    seq(|marks|, k requires 0 <= k < |marks| => Some(marks[k]))
  }

  const BlankRow: seq<Cell> := seq(5, _ => Blank)
  const UnmarkedRow: seq<Option<Mark>> := seq(5, _ => None)

  class Game {
    var grid: seq<seq<Cell>>
    var marks: seq<seq<Option<Mark>>>
    var row: nat
    var col: nat
    var answer: string
    var status: Status
    var keyColors: map<char, Color>

    /** The board invariant: a 6 x 5 grid filled in reading order up to the cursor,
        marks on exactly the submitted rows, and a finished game whose last row is full,
        which is the answer on a win and the sixth row on a loss. */
    ghost predicate Valid()
      reads this
    {
      |grid| == 6 && (forall r :: 0 <= r < 6 ==> |grid[r]| == 5) &&
      |marks| == 6 && (forall r :: 0 <= r < 6 ==> |marks[r]| == 5) &&
      row < 6 && col <= 5 &&
      (forall r, k :: 0 <= r < 6 && 0 <= k < 5 ==>
        (grid[r][k].Letter? <==> r < row || (r == row && k < col))) &&
      (forall r, k :: 0 <= r < 6 && 0 <= k < 5 ==>
        (marks[r][k].Some? <==> r < row || (r == row && status != Playing))) &&
      (status != Playing ==> col == 5) &&
      (status == Lost ==> row == 5) &&
      (status == Won ==> GuessOf(grid[row]) == answer)
    }

    /** Lines 20-33: a fresh board for a language, with the day's word lower-cased as the
        answer; a failed fetch or a missing word leaves the answer empty. */
    constructor (fetched: Option<string>)
      ensures Valid()
      ensures answer == if fetched.Some? then Lower(fetched.value) else ""
      ensures grid == seq(6, _ => BlankRow) && marks == seq(6, _ => UnmarkedRow)
      ensures row == 0 && col == 0 && status == Playing && keyColors == map[]
    {
      grid := seq(6, _ => BlankRow);
      marks := seq(6, _ => UnmarkedRow);
      row := 0;
      col := 0;
      answer := if fetched.Some? then Lower(fetched.value) else "";
      status := Playing;
      keyColors := map[];
    }

    /** Lines 72-79: once the game is over or the row is full nothing happens; otherwise
        the letter fills the cell under the cursor and the cursor moves right. */
    method AddLetter(l: char)
      requires Valid()
      modifies this
      ensures Valid()
      ensures old(status) != Playing || old(col) >= 5 ==> unchanged(this)
      ensures old(status) == Playing && old(col) < 5 ==>
        grid == Put(old(grid), old(row), old(col), Letter(l)) && col == old(col) + 1 &&
        row == old(row) && marks == old(marks) && status == old(status) &&
        answer == old(answer) && keyColors == old(keyColors)
    {
      if status != Playing {
        return;
      }
      if col >= 5 {
        return;
      }
      grid := Put(grid, row, col, Letter(l));
      col := col + 1;
    }

    /** Lines 81-88: once the game is over or the row is empty nothing happens; otherwise
        the cell left of the cursor is cleared and the cursor moves left. */
    method Del()
      requires Valid()
      modifies this
      ensures Valid()
      ensures old(status) != Playing || old(col) == 0 ==> unchanged(this)
      ensures old(status) == Playing && old(col) > 0 ==>
        grid == Put(old(grid), old(row), old(col) - 1, Blank) && col == old(col) - 1 &&
        row == old(row) && marks == old(marks) && status == old(status) &&
        answer == old(answer) && keyColors == old(keyColors)
    {
      if status != Playing {
        return;
      }
      if col == 0 {
        return;
      }
      grid := Put(grid, row, col - 1, Blank);
      col := col - 1;
    }

    /** Lines 90-181. `reply` is the validation request's result: the `valid` flag, or
        None when the request failed. A short row or a refused or failed validation
        changes nothing. Otherwise the row is marked, the key colours are raised, and the
        game is won (attempts row + 1), lost on the sixth row (attempts 7), or moves to
        the next row. */
    method Submit(reply: Option<bool>) returns (outcome: Outcome)
      requires Valid()
      modifies this
      ensures Valid()
      ensures old(col) != 5 ==> outcome == NeedFiveLetters && unchanged(this)
      ensures old(col) == 5 && reply == Some(false) ==> outcome == NotInWordList && unchanged(this)
      ensures old(col) == 5 && reply == None ==> outcome == ValidationFailed && unchanged(this)
      ensures old(col) == 5 && reply == Some(true) ==>
        var guess := GuessOf(old(grid)[old(row)]);
        |guess| == 5 &&
        marks == old(marks)[old(row) := Shown(Reference(guess, old(answer)))] &&
        keyColors.Keys == old(keyColors).Keys + Letters(guess, 5) &&
        (forall ch :: RankIn(keyColors, ch) ==
          Max(RankIn(old(keyColors), ch), RowRank(guess, Reference(guess, old(answer)), ch, 5))) &&
        grid == old(grid) && answer == old(answer) &&
        if guess == old(answer) then
          status == Won && row == old(row) && col == 5 && outcome == Finished(true, old(row) + 1)
        else if old(row) == 5 then
          status == Lost && row == 5 && col == 5 && outcome == Finished(false, 7)
        else
          status == Playing && row == old(row) + 1 && col == 0 && outcome == Continue
      ensures outcome.Finished? && outcome.won ==> 1 <= outcome.attempts <= 6
    {
      if col != 5 {
        return NeedFiveLetters;
      }
      if reply.None? {
        return ValidationFailed;
      }
      if !reply.value {
        return NotInWordList;
      }
      var guess := GuessOf(grid[row]);
      var rowMarks := EvaluateGuess(guess, answer);
      marks := marks[row := Shown(rowMarks)];
      keyColors := UpdateKeyColors(keyColors, guess, rowMarks);
      if guess == answer {
        status := Won;
        return Finished(true, row + 1);
      }
      if row == 5 {
        status := Lost;
        return Finished(false, 7);
      }
      row := row + 1;
      col := 0;
      outcome := Continue;
    }
  }

  /** Typing a letter and deleting it leaves the grid as it was. */
  lemma AddThenDel(grid: seq<seq<Cell>>, r: nat, k: nat, l: char)
    requires r < |grid| && k < |grid[r]| && grid[r][k] == Blank
    ensures Put(Put(grid, r, k, Letter(l)), r, k, Blank) == grid
  {
    PutUndo(grid, r, k, Letter(l));
  }

  /** The guess of a full row ignores the case the letters were typed in. */
  lemma GuessIgnoresCase(cells: seq<Cell>)
    requires forall k :: 0 <= k < |cells| ==> cells[k].Letter?
    ensures GuessOf(cells) == GuessOf(seq(|cells|, k requires 0 <= k < |cells| => Letter(LowerChar(cells[k].ch))))
  {
  }

  /** Findings, as written: the row's letters are compared as typed. The on-screen
      keyboard types capitals (its layouts are upper case), so a row typed there whose
      word is the answer is accepted by the validation, which lower-cases, yet every
      capital letter misses the lower-cased answer and the row is never a win. */
  lemma TypedCapitalsNeverMatch(typed: string, answer: string, i: nat)
    requires i < |typed| && IsUpper(typed[i])
    requires forall k :: 0 <= k < |answer| ==> !IsUpper(answer[k])
    ensures typed != answer
    ensures Reference(typed, answer)[i] != Correct
  {
  }

  /** The concrete case: "APPLE" typed on screen against the answer "apple". */
  lemma OnScreenAppleAsTyped()
    ensures WordBank.Validate(map["en" := ["apple"]], "en", "APPLE") == Ok(true)
    ensures "APPLE" != "apple"
    ensures forall i :: 0 <= i < 5 ==> Reference("APPLE", "apple")[i] != Correct
  {
    assert Lower("APPLE") == "apple";
    forall i | 0 <= i < 5 ensures Reference("APPLE", "apple")[i] != Correct {
      TypedCapitalsNeverMatch("APPLE", "apple", i);
    }
  }

  /** Findings, corrected: the lower-cased row is compared, so a row whose word is the
      answer in any case is all correct and wins. */
  lemma TypedAnswerWins(cells: seq<Cell>, answer: string)
    requires |cells| == |answer|
    requires forall k :: 0 <= k < |cells| ==> cells[k].Letter?
    requires Lower(RowWord(cells)) == answer
    ensures GuessOf(cells) == answer
    ensures forall i :: 0 <= i < |cells| ==> Reference(GuessOf(cells), answer)[i] == Correct
  {
    AllCorrectIffAnswer(GuessOf(cells), answer);
  }
}
