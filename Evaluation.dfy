/** The marking of one guess against the answer in `submit` of
    frontend/src/components/Game.jsx: a first pass marks exact matches `correct` and
    nulls the answer slots they use; a second pass marks every other position
    `present` when its letter is still among the un-nulled slots, nulling the first
    such slot, and leaves it `absent` otherwise. */
module Evaluation {
  import opened Wrappers

  datatype Mark = Correct | Present | Absent

  function Min(a: int, b: int): int {
    if a <= b then a else b
  }

  /** `guessArr[i] === ansArr[i]` before any slot is nulled; past the end of the answer
      `ansArr[i]` is undefined and matches nothing. */
  predicate Exact(guess: string, answer: string, i: int)
    requires 0 <= i < |guess|
  {
    i < |answer| && guess[i] == answer[i]
  }

  /** The number of positions below `hi` that hold `c` and match exactly. */
  function ExactCount(guess: string, answer: string, c: char, hi: nat): nat
    requires hi <= |guess|
  {
    if hi == 0 then 0
    else ExactCount(guess, answer, c, hi - 1) + if guess[hi - 1] == c && Exact(guess, answer, hi - 1) then 1 else 0
  }

  /** The number of positions below `hi` that hold `c` and do not match exactly. */
  function MissCount(guess: string, answer: string, c: char, hi: nat): nat
    requires hi <= |guess|
  {
    if hi == 0 then 0
    else MissCount(guess, answer, c, hi - 1) + if guess[hi - 1] == c && !Exact(guess, answer, hi - 1) then 1 else 0
  }

  /** The occurrences of `c` in the answer that no exact match uses up. */
  function Spare(guess: string, answer: string, c: char): int {
    multiset(answer)[c] - ExactCount(guess, answer, c, |guess|)
  }

  /** The marking the algorithm is meant to produce, stated without its passes: a
      position that matches exactly is correct; otherwise, if it is the k-th (from 0)
      non-matching position holding its letter, it is present when k is below the
      number of spare occurrences of that letter, and absent otherwise. */
  function Reference(guess: string, answer: string): (marks: seq<Mark>)
    ensures |marks| == |guess|
    ensures forall i :: 0 <= i < |guess| ==> (marks[i] == Correct <==> i < |answer| && guess[i] == answer[i])
  {
    seq(|guess|, i requires 0 <= i < |guess| =>
      if Exact(guess, answer, i) then Correct
      else if MissCount(guess, answer, guess[i], i) < Spare(guess, answer, guess[i]) then Present
      else Absent)
  }

  /** The number of positions below `hi` that hold `c` and carry mark `m`. */
  function CountMarks(guess: string, marks: seq<Mark>, c: char, m: Mark, hi: nat): nat
    requires hi <= |guess| && hi <= |marks|
  {
    if hi == 0 then 0
    else CountMarks(guess, marks, c, m, hi - 1) + if guess[hi - 1] == c && marks[hi - 1] == m then 1 else 0
  }

  // The two passes

  /** `ansArr.indexOf(x)`: the first index holding `x`, or -1. */
  function IndexOf(s: seq<Option<char>>, x: Option<char>): (r: int)
    ensures r == -1 <==> x !in s
    ensures r != -1 ==> 0 <= r < |s| && s[r] == x && x !in s[..r]
  {
    if s == [] then -1
    else if s[0] == x then 0
    else
      var r := IndexOf(s[1..], x);
      assert s == [s[0]] + s[1..];
      if r == -1 then -1
      else
        assert s[..r + 1] == [s[0]] + s[1..][..r];
        r + 1
  }

  /** The answer slots left after the first pass. */
  ghost function Unmatched(guess: string, answer: string): (slots: seq<Option<char>>)
    ensures |slots| == |answer|
  {
    seq(|answer|, k requires 0 <= k < |answer| =>
      if k < |guess| && Exact(guess, answer, k) then None else Some(answer[k]))
  }

  /** Lines 107-124: the marks of `guess` against `answer`, which are the reference marks. */
  method EvaluateGuess(guess: string, answer: string) returns (marks: seq<Mark>)
    requires |guess| == 5
    ensures marks == Reference(guess, answer)
  {
    var ansArr := new Option<char>[|answer|](k requires 0 <= k < |answer| => Some(answer[k]));
    var rowMarks := new Mark[5](_ => Absent);
    MarkExact(guess, answer, rowMarks, ansArr);
    MarkPresent(guess, answer, rowMarks, ansArr);
    marks := rowMarks[..];
  }

  /** Lines 111-116, the first pass. */
  method MarkExact(guess: string, answer: string, rowMarks: array<Mark>, ansArr: array<Option<char>>)
    requires |guess| == rowMarks.Length == 5
    requires forall k :: 0 <= k < 5 ==> rowMarks[k] == Absent
    requires ansArr[..] == seq(|answer|, k requires 0 <= k < |answer| => Some(answer[k]))
    modifies rowMarks, ansArr
    ensures forall k :: 0 <= k < 5 ==> rowMarks[k] == if Exact(guess, answer, k) then Correct else Absent
    ensures ansArr[..] == Unmatched(guess, answer)
  {
    for i := 0 to 5
      invariant forall k :: 0 <= k < 5 ==> rowMarks[k] == if k < i && Exact(guess, answer, k) then Correct else Absent
      invariant forall k :: 0 <= k < ansArr.Length ==>
        ansArr[k] == if k < i && Exact(guess, answer, k) then None else Some(answer[k])
    {
      if i < ansArr.Length && ansArr[i] == Some(guess[i]) {
        rowMarks[i] := Correct;
        ansArr[i] := None;
      }
    }
  }

  /** Lines 117-124, the second pass. */
  method MarkPresent(guess: string, answer: string, rowMarks: array<Mark>, ansArr: array<Option<char>>)
    requires |guess| == rowMarks.Length == 5
    requires forall k :: 0 <= k < 5 ==> rowMarks[k] == if Exact(guess, answer, k) then Correct else Absent
    requires ansArr[..] == Unmatched(guess, answer)
    modifies rowMarks, ansArr
    ensures rowMarks[..] == Reference(guess, answer)
  {
    UnmatchedCount(guess, answer);
    ghost var reference := Reference(guess, answer);
    for i := 0 to 5
      invariant forall k :: 0 <= k < 5 ==>
        rowMarks[k] == if k < i then reference[k] else if Exact(guess, answer, k) then Correct else Absent
      invariant SlotsLeft(guess, answer, ansArr[..], i)
    {
      MarkPosition(guess, answer, rowMarks, ansArr, i);
    }
    assert rowMarks[..] == reference;
  }

  /** One round of the second pass: a position already marked correct is skipped;
      otherwise the first slot still holding its letter, if any, is nulled and the
      position is marked present. The position ends up with its reference mark. */
  method MarkPosition(guess: string, answer: string, rowMarks: array<Mark>, ansArr: array<Option<char>>, i: nat)
    requires |guess| == rowMarks.Length && i < |guess|
    requires rowMarks[i] == if Exact(guess, answer, i) then Correct else Absent
    requires SlotsLeft(guess, answer, ansArr[..], i)
    modifies rowMarks, ansArr
    ensures rowMarks[..] == old(rowMarks[..])[i := Reference(guess, answer)[i]]
    ensures SlotsLeft(guess, answer, ansArr[..], i + 1)
  {
    if rowMarks[i] == Correct {
      MissStep(guess, answer, ansArr[..], i);
      return;
    }
    var idx := IndexOf(ansArr[..], Some(guess[i]));
    PresenceStep(guess, answer, ansArr[..], i);
    if idx != -1 {
      rowMarks[i] := Present;
      ansArr[idx] := None;
    }
  }

  /** The invariant of the second pass: before position `i`, the slots still holding
      `c` are its spare occurrences less those the misses so far have claimed. */
  ghost predicate SlotsLeft(guess: string, answer: string, slots: seq<Option<char>>, i: nat)
    requires i <= |guess|
  {
    forall c :: multiset(slots)[Some(c)] ==
      Spare(guess, answer, c) - Min(MissCount(guess, answer, c, i), Spare(guess, answer, c))
  }

  /** An exact match claims no slot. */
  lemma MissStep(guess: string, answer: string, slots: seq<Option<char>>, i: nat)
    requires i < |guess| && Exact(guess, answer, i)
    requires SlotsLeft(guess, answer, slots, i)
    ensures SlotsLeft(guess, answer, slots, i + 1)
  {
    forall c ensures MissCount(guess, answer, c, i + 1) == MissCount(guess, answer, c, i) {
    }
  }

  /** A miss finds a slot holding its letter exactly when the reference marks it
      present, and nulling the first such slot keeps the invariant. */
  lemma PresenceStep(guess: string, answer: string, slots: seq<Option<char>>, i: nat)
    requires i < |guess| && !Exact(guess, answer, i)
    requires SlotsLeft(guess, answer, slots, i)
    ensures Some(guess[i]) in slots <==> Reference(guess, answer)[i] == Present
    ensures Some(guess[i]) !in slots ==> SlotsLeft(guess, answer, slots, i + 1)
    ensures Some(guess[i]) in slots ==>
      SlotsLeft(guess, answer, slots[IndexOf(slots, Some(guess[i])) := None], i + 1)
  {
    var g := guess[i];
    SpareNonNegative(guess, answer, g);
    assert multiset(slots)[Some(g)] == Spare(guess, answer, g) - Min(MissCount(guess, answer, g, i), Spare(guess, answer, g));
    assert MissCount(guess, answer, g, i + 1) == MissCount(guess, answer, g, i) + 1;
    forall c | c != g ensures MissCount(guess, answer, c, i + 1) == MissCount(guess, answer, c, i) {
    }
    if Some(g) in slots {
      NullSlot(slots, IndexOf(slots, Some(g)), g);
    }
  }

  lemma NullSlot(s: seq<Option<char>>, idx: int, c: char)
    requires 0 <= idx < |s| && s[idx] == Some(c)
    ensures multiset(s[idx := None])[Some(c)] == multiset(s)[Some(c)] - 1
    ensures forall d :: d != c ==> multiset(s[idx := None])[Some(d)] == multiset(s)[Some(d)]
  {
  }

  // Lemmas behind the passes

  /** Exact matches of `c` never outnumber the occurrences of `c` in the answer. */
  lemma {:induction false} ExactCountBound(guess: string, answer: string, c: char, hi: nat)
    requires hi <= |guess|
    ensures ExactCount(guess, answer, c, hi) <= multiset(answer[..Min(hi, |answer|)])[c]
  {
    if hi > 0 {
      ExactCountBound(guess, answer, c, hi - 1);
      if hi <= |answer| {
        assert answer[..hi] == answer[..hi - 1] + [answer[hi - 1]];
      }
    }
  }

  lemma SpareNonNegative(guess: string, answer: string, c: char)
    ensures Spare(guess, answer, c) >= 0
  {
    ExactCountBound(guess, answer, c, |guess|);
    assert answer[..Min(|guess|, |answer|)] <= answer;
    MultisetOfPrefix(answer, Min(|guess|, |answer|), c);
  }

  lemma MultisetOfPrefix(s: string, n: nat, c: char)
    requires n <= |s|
    ensures multiset(s[..n])[c] <= multiset(s)[c]
  {
    assert s == s[..n] + s[n..];
  }

  /** After the first pass, the slots still holding `c` are exactly its spare occurrences. */
  lemma UnmatchedCount(guess: string, answer: string)
    ensures forall c :: multiset(Unmatched(guess, answer))[Some(c)] == Spare(guess, answer, c)
  {
    var slots := Unmatched(guess, answer);
    forall c ensures multiset(slots)[Some(c)] == Spare(guess, answer, c) {
      UnmatchedPrefixCount(guess, answer, c, |answer|);
      assert slots[..|answer|] == slots && answer[..|answer|] == answer;
      ExactCountPastAnswer(guess, answer, c, |guess|);
    }
  }

  lemma {:induction false} UnmatchedPrefixCount(guess: string, answer: string, c: char, hi: nat)
    requires hi <= |answer|
    ensures multiset(Unmatched(guess, answer)[..hi])[Some(c)] ==
            multiset(answer[..hi])[c] - ExactCount(guess, answer, c, Min(hi, |guess|))
  {
    if hi > 0 {
      UnmatchedPrefixCount(guess, answer, c, hi - 1);
      UnmatchedStep(guess, answer, c, hi - 1);
      ExactCountStep(guess, answer, c, hi - 1);
    }
  }

  /** One more slot holds `c` exactly when the answer has `c` there and no exact match
      used it. */
  lemma UnmatchedStep(guess: string, answer: string, c: char, k: nat)
    requires k < |answer|
    ensures var slots := Unmatched(guess, answer);
      multiset(slots[..k + 1])[Some(c)] == multiset(slots[..k])[Some(c)] +
        (if answer[k] == c && !(k < |guess| && Exact(guess, answer, k)) then 1 else 0)
    ensures multiset(answer[..k + 1])[c] == multiset(answer[..k])[c] + (if answer[k] == c then 1 else 0)
  {
    var slots := Unmatched(guess, answer);
    assert slots[..k + 1] == slots[..k] + [slots[k]];
    assert answer[..k + 1] == answer[..k] + [answer[k]];
  }

  /** One more position of the answer adds an exact match on `c` exactly when the guess
      reaches it and matches `c` there. */
  lemma ExactCountStep(guess: string, answer: string, c: char, k: nat)
    requires k < |answer|
    ensures ExactCount(guess, answer, c, Min(k + 1, |guess|)) == ExactCount(guess, answer, c, Min(k, |guess|)) +
        (if answer[k] == c && k < |guess| && Exact(guess, answer, k) then 1 else 0)
  {
    if k < |guess| {
      assert Min(k + 1, |guess|) == k + 1 && Min(k, |guess|) == k;
    } else {
      assert Min(k + 1, |guess|) == Min(k, |guess|);
    }
  }

  /** Positions past the end of the answer add no exact matches. */
  lemma {:induction false} ExactCountPastAnswer(guess: string, answer: string, c: char, hi: nat)
    requires hi <= |guess|
    ensures ExactCount(guess, answer, c, hi) == ExactCount(guess, answer, c, Min(hi, |answer|))
  {
    if hi > |answer| {
      ExactCountPastAnswer(guess, answer, c, hi - 1);
    }
  }

  // What the marking promises

  lemma {:induction false} MissCountMonotone(guess: string, answer: string, c: char, lo: nat, hi: nat)
    requires lo <= hi <= |guess|
    ensures MissCount(guess, answer, c, lo) <= MissCount(guess, answer, c, hi)
  {
    if lo < hi {
      MissCountMonotone(guess, answer, c, lo, hi - 1);
    }
  }

  /** The positions holding `c` marked correct are its exact matches. */
  lemma {:induction false} CorrectCount(guess: string, answer: string, c: char, hi: nat)
    requires hi <= |guess|
    ensures CountMarks(guess, Reference(guess, answer), c, Correct, hi) == ExactCount(guess, answer, c, hi)
  {
    if hi > 0 {
      CorrectCount(guess, answer, c, hi - 1);
    }
  }

  /** The positions holding `c` marked present are its misses, up to the number of
      spare occurrences of `c`. */
  lemma {:induction false} PresentCount(guess: string, answer: string, c: char, hi: nat)
    requires hi <= |guess|
    ensures CountMarks(guess, Reference(guess, answer), c, Present, hi) ==
            Min(MissCount(guess, answer, c, hi), Spare(guess, answer, c))
  {
    SpareNonNegative(guess, answer, c);
    if hi > 0 {
      PresentCount(guess, answer, c, hi - 1);
      PresentCountStep(guess, answer, c, hi - 1);
    }
  }

  /** One more position adds a present mark on `c` exactly when it is a miss on `c` that
      still finds a spare occurrence. */
  lemma PresentCountStep(guess: string, answer: string, c: char, k: nat)
    requires k < |guess|
    ensures var miss := guess[k] == c && !Exact(guess, answer, k);
      MissCount(guess, answer, c, k + 1) == MissCount(guess, answer, c, k) + (if miss then 1 else 0) &&
      CountMarks(guess, Reference(guess, answer), c, Present, k + 1) ==
        CountMarks(guess, Reference(guess, answer), c, Present, k) +
        (if miss && MissCount(guess, answer, c, k) < Spare(guess, answer, c) then 1 else 0)
  {
    var marks := Reference(guess, answer);
    assert guess[k] == c ==> (marks[k] == Present <==>
      !Exact(guess, answer, k) && MissCount(guess, answer, c, k) < Spare(guess, answer, c));
  }

  /** Each occurrence of a letter in the answer backs at most one correct or present
      mark on that letter: slots are used at most once. */
  lemma CreditBound(guess: string, answer: string, c: char)
    ensures var marks := Reference(guess, answer);
      CountMarks(guess, marks, c, Correct, |guess|) + CountMarks(guess, marks, c, Present, |guess|)
        <= multiset(answer)[c]
  {
    CorrectCount(guess, answer, c, |guess|);
    PresentCount(guess, answer, c, |guess|);
  }

  /** A position left absent means its letter's occurrences in the answer are all used up
      by correct and present marks. */
  lemma AbsentExhausts(guess: string, answer: string, i: nat)
    requires i < |guess| && Reference(guess, answer)[i] == Absent
    ensures var marks := Reference(guess, answer);
      CountMarks(guess, marks, guess[i], Correct, |guess|) + CountMarks(guess, marks, guess[i], Present, |guess|)
        == multiset(answer)[guess[i]]
  {
    var c := guess[i];
    AbsentMissesOverflow(guess, answer, i);
    CorrectCount(guess, answer, c, |guess|);
    PresentCount(guess, answer, c, |guess|);
  }

  /** An absent position is a miss beyond the spare occurrences of its letter. */
  lemma AbsentMissesOverflow(guess: string, answer: string, i: nat)
    requires i < |guess| && Reference(guess, answer)[i] == Absent
    ensures MissCount(guess, answer, guess[i], |guess|) > Spare(guess, answer, guess[i])
  {
    var c := guess[i];
    AbsentMeans(guess, answer, i);
    assert MissCount(guess, answer, c, i + 1) == MissCount(guess, answer, c, i) + 1;
    MissCountMonotone(guess, answer, c, i + 1, |guess|);
  }

  /** The reference marks a position absent when it is a miss with no spare occurrence left. */
  lemma AbsentMeans(guess: string, answer: string, i: nat)
    requires i < |guess| && Reference(guess, answer)[i] == Absent
    ensures !Exact(guess, answer, i) && MissCount(guess, answer, guess[i], i) >= Spare(guess, answer, guess[i])
  {
  }

  /** Among the misses on one letter, present marks go to the leftmost positions: a miss
      to the right of an absent one is absent too. */
  lemma PresentLeftmost(guess: string, answer: string, i: nat, j: nat)
    requires i < j < |guess| && guess[i] == guess[j]
    requires !Exact(guess, answer, j) && Reference(guess, answer)[i] == Absent
    ensures Reference(guess, answer)[j] == Absent
  {
    MissCountMonotone(guess, answer, guess[i], i + 1, j);
  }

  /** A letter marked present occurs in the answer. */
  lemma PresentOccurs(guess: string, answer: string, i: nat)
    requires i < |guess| && Reference(guess, answer)[i] == Present
    ensures guess[i] in answer
  {
    assert multiset(answer)[guess[i]] > 0;
  }

  /** A guess of the answer's length is marked all correct exactly when it is the answer. */
  lemma AllCorrectIffAnswer(guess: string, answer: string)
    requires |guess| == |answer|
    ensures (forall i :: 0 <= i < |guess| ==> Reference(guess, answer)[i] == Correct) <==> guess == answer
  {
    var marks := Reference(guess, answer);
    if forall i :: 0 <= i < |guess| ==> marks[i] == Correct {
      assert forall i :: 0 <= i < |guess| ==> guess[i] == answer[i];
    }
  }

  /** Duplicate letters: "eeeee" against "apple" is correct at the last position and
      absent everywhere else, since the single "e" of the answer is used by the exact match. */
  lemma DuplicateLettersExample()
    ensures Reference("eeeee", "apple") == [Absent, Absent, Absent, Absent, Correct]
  {
    var g, a := "eeeee", "apple";
    assert ExactCount(g, a, 'e', 5) == 1;
    assert multiset(a)['e'] == 1 by {
      assert a == ['a'] + ['p'] + ['p'] + ['l'] + ['e'];
    }
  }
}
