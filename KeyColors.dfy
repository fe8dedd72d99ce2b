/** The on-screen keyboard colours kept by `submit` in frontend/src/components/Game.jsx:
    after each row every guessed letter shows the best colour it has earned so far,
    ranked grey < yellow < green, and a key never seen has no colour (rank 0). */
module KeyColors {
  import opened Evaluation

  datatype Color = Grey | Yellow | Green

  /** The colour a mark gives its key: an exact match ranks highest, a letter that is
      absent lowest. */
  function ColorOf(m: Mark): (c: Color)
    ensures Rank(c) == 3 <==> m == Correct
    ensures Rank(c) == 1 <==> m == Absent
  {
    match m
    case Correct => Green
    case Present => Yellow
    case Absent => Grey
  }

  /** The `order` table of the source: green above yellow above grey, all above the
      rank 0 of a key without a colour. */
  function Rank(c: Color): (r: nat)
    ensures 1 <= r <= 3
    ensures r == 3 <==> c == Green
    ensures r == 1 <==> c == Grey
  {
    match c
    case Grey => 1
    case Yellow => 2
    case Green => 3
  }

  /** The rank a key shows; a letter with no entry ranks as the empty colour. */
  function RankIn(colors: map<char, Color>, ch: char): nat {
    if ch in colors then Rank(colors[ch]) else 0
  }

  function Max(a: nat, b: nat): nat {
    if a <= b then b else a
  }

  /** The best rank the positions below `hi` give to letter `ch`, 0 if none holds it. */
  function RowRank(guess: string, marks: seq<Mark>, ch: char, hi: nat): nat
    requires hi <= |guess| && hi <= |marks|
  {
    if hi == 0 then 0
    else if guess[hi - 1] == ch then Max(RowRank(guess, marks, ch, hi - 1), Rank(ColorOf(marks[hi - 1])))
    else RowRank(guess, marks, ch, hi - 1)
  }

  /** The letters of the first `hi` positions. */
  function Letters(guess: string, hi: nat): set<char>
    requires hi <= |guess|
  {
    set k | 0 <= k < hi :: guess[k]
  }

  /** Lines 130-143: each guessed key takes the colour of its mark when that ranks above
      the key's current colour. Every other key keeps its colour, and no key loses rank. */
  method UpdateKeyColors(keyColors: map<char, Color>, guess: string, marks: seq<Mark>)
    returns (next: map<char, Color>)
    requires |guess| == 5 && |marks| == 5
    ensures next.Keys == keyColors.Keys + Letters(guess, 5)
    ensures forall ch :: RankIn(next, ch) == Max(RankIn(keyColors, ch), RowRank(guess, marks, ch, 5))
    ensures forall ch :: ch in keyColors && ch !in guess ==> next[ch] == keyColors[ch]
  {
    next := keyColors;
    for i := 0 to 5
      invariant next.Keys == keyColors.Keys + Letters(guess, i)
      invariant forall ch :: RankIn(next, ch) == Max(RankIn(keyColors, ch), RowRank(guess, marks, ch, i))
      invariant forall ch :: ch in keyColors && ch !in guess[..i] ==> next[ch] == keyColors[ch]
    {
      var ch := guess[i];
      var cur := RankIn(next, ch);
      var color := ColorOf(marks[i]);
      if Rank(color) > cur {
        next := next[ch := color];
      }
      assert guess[..i + 1] == guess[..i] + [ch];
      assert Letters(guess, i + 1) == Letters(guess, i) + {ch};
    }
    assert guess[..5] == guess;
  }

  /** The rank of a row is the best rank of its positions on that letter: no position ranks
      above it, and a row holding the letter attains it at one of its positions. */
  lemma {:induction false} RowRankIsBest(guess: string, marks: seq<Mark>, ch: char, hi: nat)
    requires hi <= |guess| && hi <= |marks|
    ensures forall k :: 0 <= k < hi && guess[k] == ch ==> Rank(ColorOf(marks[k])) <= RowRank(guess, marks, ch, hi)
    ensures ch in guess[..hi] ==>
      exists k :: 0 <= k < hi && guess[k] == ch && Rank(ColorOf(marks[k])) == RowRank(guess, marks, ch, hi)
    ensures ch !in guess[..hi] ==> RowRank(guess, marks, ch, hi) == 0
  {
    if hi > 0 {
      RowRankIsBest(guess, marks, ch, hi - 1);
      assert guess[..hi] == guess[..hi - 1] + [guess[hi - 1]];
    }
  }

  /** A key turns green exactly when it already was green or the row has an exact
      match on that letter. */
  lemma GreenKeys(keyColors: map<char, Color>, guess: string, marks: seq<Mark>,
                  next: map<char, Color>, ch: char)
    requires |guess| == 5 && |marks| == 5
    requires forall c :: RankIn(next, c) == Max(RankIn(keyColors, c), RowRank(guess, marks, c, 5))
    ensures (ch in next && next[ch] == Green) <==>
      (ch in keyColors && keyColors[ch] == Green) || exists k :: 0 <= k < 5 && guess[k] == ch && marks[k] == Correct
  {
    RowRankIsBest(guess, marks, ch, 5);
    assert guess[..5] == guess;
    assert RankIn(next, ch) == Max(RankIn(keyColors, ch), RowRank(guess, marks, ch, 5));
  }
}
