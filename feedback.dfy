/**
 * compute_feedback of game/combat.py: Mastermind scoring of a four-digit
 * guess. A first pass marks exact matches GREEN and blanks them out of
 * copies of both lists; a second pass marks a remaining guess digit ORANGE
 * when it still occurs in the copied secret and blanks its first occurrence
 * there; everything else stays RED.
 *
 * The result is specified independently by IsFeedback: GREEN exactly on
 * matches, for every digit d as many non-RED positions holding d as the
 * smaller of d's counts in guess and secret, and ORANGE given to the
 * leftmost candidates. FeedbackUnique shows that this determines the result.
 */
module Feedback {
  import opened Wrappers
  import opened Basics

  datatype Color = Green | Orange | Red

  /** The number of digits in a secret and in a guess. */
  const Digits: nat := 4

  /** The number of true entries of m. */
  function Trues(m: seq<bool>): nat {
    if m == [] then 0 else Trues(m[..|m| - 1]) + (if m[|m| - 1] then 1 else 0)
  }

  /** If each entry of a is true exactly when one of b, c is, a counts what b and c count together. */
  lemma {:induction false} TruesSplit(a: seq<bool>, b: seq<bool>, c: seq<bool>)
    requires |a| == |b| == |c|
    requires forall k :: 0 <= k < |a| ==> (a[k] <==> b[k] || c[k]) && !(b[k] && c[k])
    ensures Trues(a) == Trues(b) + Trues(c)
  {
    if a != [] {
      var n := |a| - 1;
      TruesSplit(a[..n], b[..n], c[..n]);
    }
  }

  /** Fewer true entries where a implies b. */
  lemma {:induction false} TruesMono(a: seq<bool>, b: seq<bool>)
    requires |a| == |b|
    requires forall k :: 0 <= k < |a| && a[k] ==> b[k]
    ensures Trues(a) <= Trues(b)
  {
    if a != [] {
      var n := |a| - 1;
      TruesMono(a[..n], b[..n]);
    }
  }

  /** Some entry is true exactly when the count is positive. */
  lemma {:induction false} TruesPositive(a: seq<bool>)
    ensures Trues(a) > 0 <==> exists k :: 0 <= k < |a| && a[k]
  {
    if a != [] {
      var n := |a| - 1;
      TruesPositive(a[..n]);
      assert forall k :: 0 <= k < n ==> a[..n][k] == a[k];
    }
  }

  /** A mask with exactly one true entry, at j. */
  lemma {:induction false} TruesSingle(a: seq<bool>, j: nat)
    requires j < |a| && forall k :: 0 <= k < |a| ==> (a[k] <==> k == j)
    ensures Trues(a) == 1
  {
    var n := |a| - 1;
    var zero := seq(n, _ => false);
    assert a[..n] == if j == n then zero else a[..n];
    if j == n {
      TruesMono(a[..n], zero);
      assert Trues(zero) == 0 by { TruesPositive(zero); }
    } else {
      TruesSingle(a[..n], j);
    }
  }

  // Masks over the four positions; each count below is Trues of a mask.

  /** Positions of s holding d. */
  function OccurrenceMask(s: seq<char>, d: char): (m: seq<bool>)
    ensures |m| == |s| && forall k :: 0 <= k < |s| ==> (m[k] <==> s[k] == d)
  {
    seq(|s|, k requires 0 <= k < |s| => s[k] == d)
  }

  function Occurrences(s: seq<char>, d: char): nat {
    Trues(OccurrenceMask(s, d))
  }

  /** Positions where guess and secret both hold d. */
  function HitMask(secret: seq<char>, guess: seq<char>, d: char): (m: seq<bool>)
    requires |secret| == Digits && |guess| == Digits
    ensures |m| == Digits && forall k :: 0 <= k < Digits ==> (m[k] <==> guess[k] == secret[k] && guess[k] == d)
  {
    seq(Digits, k requires 0 <= k < Digits => guess[k] == secret[k] && guess[k] == d)
  }

  /** Positions where the secret holds d and the guess does not match it. */
  function SecretLeftMask(secret: seq<char>, guess: seq<char>, d: char): (m: seq<bool>)
    requires |secret| == Digits && |guess| == Digits
    ensures |m| == Digits && forall k :: 0 <= k < Digits ==> (m[k] <==> secret[k] == d && guess[k] != secret[k])
  {
    seq(Digits, k requires 0 <= k < Digits => secret[k] == d && guess[k] != secret[k])
  }

  /** Positions where the guess holds d and does not match the secret. */
  function GuessLeftMask(secret: seq<char>, guess: seq<char>, d: char): (m: seq<bool>)
    requires |secret| == Digits && |guess| == Digits
    ensures |m| == Digits && forall k :: 0 <= k < Digits ==> (m[k] <==> guess[k] == d && guess[k] != secret[k])
  {
    seq(Digits, k requires 0 <= k < Digits => guess[k] == d && guess[k] != secret[k])
  }

  /** Positions holding d that carry color c. */
  function ColorMask(fb: seq<Color>, guess: seq<char>, c: Color, d: char): (m: seq<bool>)
    requires |fb| == Digits && |guess| == Digits
    ensures |m| == Digits && forall k :: 0 <= k < Digits ==> (m[k] <==> fb[k] == c && guess[k] == d)
  {
    seq(Digits, k requires 0 <= k < Digits => fb[k] == c && guess[k] == d)
  }

  /** Positions holding d that are not RED. */
  function ScoredMask(fb: seq<Color>, guess: seq<char>, d: char): (m: seq<bool>)
    requires |fb| == Digits && |guess| == Digits
    ensures |m| == Digits && forall k :: 0 <= k < Digits ==> (m[k] <==> fb[k] != Red && guess[k] == d)
  {
    seq(Digits, k requires 0 <= k < Digits => fb[k] != Red && guess[k] == d)
  }

  /** The number of non-RED positions of the guess holding digit d. */
  function Scored(fb: seq<Color>, guess: seq<char>, d: char): nat
    requires |fb| == Digits && |guess| == Digits
  {
    Trues(ScoredMask(fb, guess, d))
  }

  /** Slots of the copied secret still holding d. */
  function RemainingMask(copy: seq<Option<char>>, d: char): (m: seq<bool>)
    ensures |m| == |copy| && forall k :: 0 <= k < |copy| ==> (m[k] <==> copy[k] == Some(d))
  {
    seq(|copy|, k requires 0 <= k < |copy| => copy[k] == Some(d))
  }

  /**
   * What compute_feedback promises: four colors; GREEN exactly where the
   * digits match; for every digit, as many non-RED positions as the smaller
   * of its counts in guess and secret; and an ORANGE at a position implies
   * ORANGE at every earlier non-GREEN position with the same digit.
   */
  ghost predicate IsFeedback(secret: seq<char>, guess: seq<char>, fb: seq<Color>)
    requires |secret| == Digits && |guess| == Digits
  {
    && |fb| == Digits
    && (forall i :: 0 <= i < Digits ==> (fb[i] == Green <==> guess[i] == secret[i]))
    && (forall d :: Scored(fb, guess, d) == Min(Occurrences(guess, d), Occurrences(secret, d)))
    && (forall i, j :: 0 <= j < i < Digits && fb[i] == Orange && fb[j] != Green && guess[j] == guess[i] ==>
          fb[j] == Orange)
  }

  /**
   * compute_feedback. The arguments are values, so they are not changed;
   * only the local copies are.
   */
  method ComputeFeedback(secret: seq<char>, guess: seq<char>) returns (feedback: seq<Color>)
    requires |secret| == Digits && |guess| == Digits
    ensures IsFeedback(secret, guess, feedback)
  {
    var secretCopy, guessCopy;
    feedback, secretCopy, guessCopy := ExactPass(secret, guess);
    forall d
      ensures Trues(RemainingMask(secretCopy, d)) + Trues(ColorMask(feedback, guess, Orange, d))
              == Trues(SecretLeftMask(secret, guess, d))
    {
      assert RemainingMask(secretCopy, d) == SecretLeftMask(secret, guess, d);
      assert forall k :: 0 <= k < Digits ==> !ColorMask(feedback, guess, Orange, d)[k];
      TruesPositive(ColorMask(feedback, guess, Orange, d));
    }
    feedback, secretCopy := MisplacedPass(secret, guess, feedback, secretCopy, guessCopy);
    FeedbackCounts(secret, guess, feedback, secretCopy);
  }

  /** The first pass: GREEN on exact matches, which are blanked out of both copies. */
  method ExactPass(secret: seq<char>, guess: seq<char>)
    returns (feedback: seq<Color>, secretCopy: seq<Option<char>>, guessCopy: seq<Option<char>>)
    requires |secret| == Digits && |guess| == Digits
    ensures |feedback| == Digits && |secretCopy| == Digits && |guessCopy| == Digits
    ensures forall k :: 0 <= k < Digits ==> feedback[k] == (if guess[k] == secret[k] then Green else Red)
    ensures forall k :: 0 <= k < Digits ==> secretCopy[k] == (if guess[k] == secret[k] then None else Some(secret[k]))
    ensures forall k :: 0 <= k < Digits ==> guessCopy[k] == (if guess[k] == secret[k] then None else Some(guess[k]))
  {
    feedback := [Red, Red, Red, Red];
    secretCopy := [Some(secret[0]), Some(secret[1]), Some(secret[2]), Some(secret[3])];
    guessCopy := [Some(guess[0]), Some(guess[1]), Some(guess[2]), Some(guess[3])];
    for i := 0 to Digits
      invariant |feedback| == Digits && |secretCopy| == Digits && |guessCopy| == Digits
      invariant forall k :: 0 <= k < Digits ==>
                  feedback[k] == (if k < i && guess[k] == secret[k] then Green else Red)
      invariant forall k :: 0 <= k < Digits ==>
                  secretCopy[k] == (if k < i && guess[k] == secret[k] then None else Some(secret[k]))
      invariant forall k :: 0 <= k < Digits ==>
                  guessCopy[k] == (if k < i && guess[k] == secret[k] then None else Some(guess[k]))
    {
      if guess[i] == secret[i] {
        feedback := feedback[i := Green];
        secretCopy := secretCopy[i := None];
        guessCopy := guessCopy[i := None];
      }
    }
  }

  /**
   * The second pass: a non-GREEN guess digit still present in the copied
   * secret turns ORANGE and blanks the first slot holding it. Its
   * postconditions are the facts FeedbackCounts turns into IsFeedback.
   */
  method MisplacedPass(secret: seq<char>, guess: seq<char>, fb: seq<Color>,
                       copy: seq<Option<char>>, guessCopy: seq<Option<char>>)
    returns (feedback: seq<Color>, secretCopy: seq<Option<char>>)
    requires |secret| == Digits && |guess| == Digits && |fb| == Digits && |copy| == Digits && |guessCopy| == Digits
    requires forall k :: 0 <= k < Digits ==> fb[k] == (if guess[k] == secret[k] then Green else Red)
    requires forall k :: 0 <= k < Digits ==> guessCopy[k] == (if guess[k] == secret[k] then None else Some(guess[k]))
    requires forall d :: Trues(RemainingMask(copy, d)) + Trues(ColorMask(fb, guess, Orange, d))
                         == Trues(SecretLeftMask(secret, guess, d))
    ensures |feedback| == Digits && |secretCopy| == Digits
    ensures forall k :: 0 <= k < Digits ==> (feedback[k] == Green <==> guess[k] == secret[k])
    ensures forall d :: Trues(RemainingMask(secretCopy, d)) + Trues(ColorMask(feedback, guess, Orange, d))
                        == Trues(SecretLeftMask(secret, guess, d))
    ensures forall k :: 0 <= k < Digits && feedback[k] == Red ==> Trues(RemainingMask(secretCopy, guess[k])) == 0
    ensures forall j, k :: 0 <= k < j < Digits && feedback[j] == Orange && feedback[k] == Red ==> guess[k] != guess[j]
  {
    feedback, secretCopy := fb, copy;
    for i := 0 to Digits
      invariant MisplacedInvariant(secret, guess, fb, feedback, secretCopy, i)
    {
      if guessCopy[i] != None && guessCopy[i] in secretCopy {
        var index := IndexOf(secretCopy, guessCopy[i]);
        OrangeStep(secret, guess, fb, feedback, secretCopy, i, index);
        feedback := feedback[i := Orange];
        secretCopy := secretCopy[index := None];
      } else {
        RedStep(secret, guess, fb, feedback, secretCopy, i);
      }
    }
  }

  /** The invariant of the second pass after i positions. */
  ghost predicate MisplacedInvariant(secret: seq<char>, guess: seq<char>, fb: seq<Color>,
                                     feedback: seq<Color>, copy: seq<Option<char>>, i: nat)
    requires |secret| == Digits && |guess| == Digits && |fb| == Digits
  {
    && i <= Digits && |feedback| == Digits && |copy| == Digits
    && (forall k :: 0 <= k < Digits ==> (feedback[k] == Green <==> guess[k] == secret[k]))
    && (forall k :: i <= k < Digits ==> feedback[k] == fb[k])
    && (forall d :: Trues(RemainingMask(copy, d)) + Trues(ColorMask(feedback, guess, Orange, d))
                    == Trues(SecretLeftMask(secret, guess, d)))
    && (forall k :: 0 <= k < i && feedback[k] == Red ==> Trues(RemainingMask(copy, guess[k])) == 0)
    && (forall j, k :: 0 <= k < j < i && feedback[j] == Orange && feedback[k] == Red ==> guess[k] != guess[j])
  }

  /** Marking position i ORANGE and blanking the first copied slot holding its digit keeps the invariant. */
  lemma OrangeStep(secret: seq<char>, guess: seq<char>, fb: seq<Color>,
                   feedback: seq<Color>, copy: seq<Option<char>>, i: nat, index: nat)
    requires |secret| == Digits && |guess| == Digits && |fb| == Digits
    requires forall k :: 0 <= k < Digits ==> fb[k] == (if guess[k] == secret[k] then Green else Red)
    requires MisplacedInvariant(secret, guess, fb, feedback, copy, i) && i < Digits
    requires guess[i] != secret[i] && index < Digits && copy[index] == Some(guess[i])
    ensures MisplacedInvariant(secret, guess, fb, feedback[i := Orange], copy[index := None], i + 1)
  {
    var d := guess[i];
    TakeSlot(copy, index, guess, feedback, i, d);
    assert RemainingMask(copy, d)[index];
    TruesPositive(RemainingMask(copy, d));
    forall k | 0 <= k < i && feedback[k] == Red
      ensures Trues(RemainingMask(copy[index := None], guess[k])) == 0
    {
      assert Trues(RemainingMask(copy, guess[k])) == 0;
    }
  }

  /** Leaving position i as it is keeps the invariant when its digit is GREEN or absent from the copy. */
  lemma RedStep(secret: seq<char>, guess: seq<char>, fb: seq<Color>,
                feedback: seq<Color>, copy: seq<Option<char>>, i: nat)
    requires |secret| == Digits && |guess| == Digits && |fb| == Digits
    requires forall k :: 0 <= k < Digits ==> fb[k] == (if guess[k] == secret[k] then Green else Red)
    requires MisplacedInvariant(secret, guess, fb, feedback, copy, i) && i < Digits
    requires guess[i] != secret[i] ==> Some(guess[i]) !in copy
    ensures MisplacedInvariant(secret, guess, fb, feedback, copy, i + 1)
  {
    if guess[i] != secret[i] {
      TruesPositive(RemainingMask(copy, guess[i]));
    }
  }

  /**
   * One step of the second pass: blanking the slot holding d in the copied
   * secret and marking position i ORANGE moves one unit of d from "remaining"
   * to "marked", and no other digit's counts change.
   */
  lemma TakeSlot(copy: seq<Option<char>>, index: nat, guess: seq<char>, fb: seq<Color>, i: nat, d: char)
    requires |copy| == Digits && |fb| == Digits && |guess| == Digits
    requires index < Digits && copy[index] == Some(d) && i < Digits && fb[i] == Red && guess[i] == d
    ensures forall e :: Trues(RemainingMask(copy[index := None], e)) + (if e == d then 1 else 0)
                        == Trues(RemainingMask(copy, e))
    ensures forall e :: Trues(ColorMask(fb[i := Orange], guess, Orange, e))
                        == Trues(ColorMask(fb, guess, Orange, e)) + (if e == d then 1 else 0)
  {
    var single := seq(Digits, k requires 0 <= k < Digits => k == index);
    var singleI := seq(Digits, k requires 0 <= k < Digits => k == i);
    TruesSingle(single, index);
    TruesSingle(singleI, i);
    forall e
      ensures Trues(RemainingMask(copy[index := None], e)) + (if e == d then 1 else 0)
              == Trues(RemainingMask(copy, e))
    {
      if e == d {
        TruesSplit(RemainingMask(copy, e), RemainingMask(copy[index := None], e), single);
      } else {
        assert RemainingMask(copy, e) == RemainingMask(copy[index := None], e);
      }
    }
    forall e
      ensures Trues(ColorMask(fb[i := Orange], guess, Orange, e))
              == Trues(ColorMask(fb, guess, Orange, e)) + (if e == d then 1 else 0)
    {
      if e == d {
        TruesSplit(ColorMask(fb[i := Orange], guess, Orange, e), ColorMask(fb, guess, Orange, e), singleI);
      } else {
        assert ColorMask(fb[i := Orange], guess, Orange, e) == ColorMask(fb, guess, Orange, e);
      }
    }
  }

  /** The final counting argument: the loop invariants of the second pass give IsFeedback. */
  lemma FeedbackCounts(secret: seq<char>, guess: seq<char>, fb: seq<Color>, copy: seq<Option<char>>)
    requires |secret| == Digits && |guess| == Digits && |fb| == Digits && |copy| == Digits
    requires forall k :: 0 <= k < Digits ==> (fb[k] == Green <==> guess[k] == secret[k])
    requires forall d :: Trues(RemainingMask(copy, d)) + Trues(ColorMask(fb, guess, Orange, d))
                         == Trues(SecretLeftMask(secret, guess, d))
    requires forall k :: 0 <= k < Digits && fb[k] == Red ==> Trues(RemainingMask(copy, guess[k])) == 0
    requires forall j, k :: 0 <= k < j < Digits && fb[j] == Orange && fb[k] == Red ==> guess[k] != guess[j]
    ensures IsFeedback(secret, guess, fb)
  {
    forall d
      ensures Scored(fb, guess, d) == Min(Occurrences(guess, d), Occurrences(secret, d))
    {
      var hits := HitMask(secret, guess, d);
      var greens := ColorMask(fb, guess, Green, d);
      var oranges := ColorMask(fb, guess, Orange, d);
      assert greens == hits;
      TruesSplit(ScoredMask(fb, guess, d), greens, oranges);
      TruesSplit(OccurrenceMask(guess, d), hits, GuessLeftMask(secret, guess, d));
      TruesSplit(OccurrenceMask(secret, d), hits, SecretLeftMask(secret, guess, d));
      TruesMono(oranges, GuessLeftMask(secret, guess, d));
      if exists k :: 0 <= k < Digits && fb[k] == Red && guess[k] == d {
        assert Trues(oranges) == Trues(SecretLeftMask(secret, guess, d));
      } else {
        assert oranges == GuessLeftMask(secret, guess, d);
      }
    }
  }

  /** Guessing the secret exactly scores four GREENs. */
  lemma ExactGuessAllGreen(secret: seq<char>, fb: seq<Color>)
    requires |secret| == Digits && IsFeedback(secret, secret, fb)
    ensures fb == [Green, Green, Green, Green]
  {
  }

  /**
   * No digit is over-credited: the non-RED positions holding d never
   * outnumber d's occurrences in the secret, since every credit consumes a
   * secret slot.
   */
  lemma NoDigitOverCredited(secret: seq<char>, guess: seq<char>, fb: seq<Color>, d: char)
    requires |secret| == Digits && |guess| == Digits && IsFeedback(secret, guess, fb)
    ensures Scored(fb, guess, d) <= Occurrences(secret, d)
    ensures Scored(fb, guess, d) <= Occurrences(guess, d)
  {
  }

  /** An ORANGE digit occurs at some position of the secret that was not matched GREEN. */
  lemma OrangeHasUnmatchedSlot(secret: seq<char>, guess: seq<char>, fb: seq<Color>, i: nat)
    requires |secret| == Digits && |guess| == Digits && IsFeedback(secret, guess, fb)
    requires i < Digits && fb[i] == Orange
    ensures exists j :: 0 <= j < Digits && secret[j] == guess[i] && guess[j] != secret[j]
  {
    var d := guess[i];
    var hits := HitMask(secret, guess, d);
    var greens := ColorMask(fb, guess, Green, d);
    var oranges := ColorMask(fb, guess, Orange, d);
    assert greens == hits;
    TruesSplit(ScoredMask(fb, guess, d), greens, oranges);
    TruesSplit(OccurrenceMask(secret, d), hits, SecretLeftMask(secret, guess, d));
    assert oranges[i];
    TruesPositive(oranges);
    assert Scored(fb, guess, d) == Min(Occurrences(guess, d), Occurrences(secret, d));
    TruesPositive(SecretLeftMask(secret, guess, d));
  }

  /** The specification determines the feedback: two results meeting it are equal. */
  lemma FeedbackUnique(secret: seq<char>, guess: seq<char>, f1: seq<Color>, f2: seq<Color>)
    requires |secret| == Digits && |guess| == Digits
    requires IsFeedback(secret, guess, f1) && IsFeedback(secret, guess, f2)
    ensures f1 == f2
  {
    if f1 != f2 {
      var i :| 0 <= i < Digits && f1[i] != f2[i] && forall k :: 0 <= k < i ==> f1[k] == f2[k];
      if f1[i] == Orange {
        FirstDifference(secret, guess, f1, f2, i);
      } else {
        FirstDifference(secret, guess, f2, f1, i);
      }
      assert false;
    }
  }

  /**
   * If a and b agree before position i, where a has ORANGE and b RED, and b
   * gives ORANGE to the leftmost candidates, then a credits guess[i] more
   * often than b.
   */
  lemma FirstDifference(secret: seq<char>, guess: seq<char>, a: seq<Color>, b: seq<Color>, i: nat)
    requires |secret| == Digits && |guess| == Digits && |a| == Digits && |b| == Digits
    requires forall k :: 0 <= k < Digits ==> (a[k] == Green <==> guess[k] == secret[k])
    requires forall k :: 0 <= k < Digits ==> (b[k] == Green <==> guess[k] == secret[k])
    requires forall j, k :: 0 <= k < j < Digits && b[j] == Orange && b[k] != Green && guess[k] == guess[j] ==>
               b[k] == Orange
    requires i < Digits && a[i] == Orange && b[i] == Red && forall k :: 0 <= k < i ==> a[k] == b[k]
    ensures Scored(a, guess, guess[i]) > Scored(b, guess, guess[i])
  {
    var d := guess[i];
    // In b, every ORANGE holding d lies before i; before i, a and b agree.
    var early := seq(Digits, k requires 0 <= k < Digits => k < i && b[k] == Orange && guess[k] == d);
    var atI := seq(Digits, k requires 0 <= k < Digits => k == i);
    var late := seq(Digits, k requires 0 <= k < Digits => k > i && a[k] == Orange && guess[k] == d);
    assert ColorMask(b, guess, Orange, d) == early;
    TruesSingle(atI, i);
    var earlyOrI := seq(Digits, k requires 0 <= k < Digits => early[k] || atI[k]);
    TruesSplit(earlyOrI, early, atI);
    TruesSplit(ColorMask(a, guess, Orange, d),
               earlyOrI, late);
    var ga := ColorMask(a, guess, Green, d);
    var gb := ColorMask(b, guess, Green, d);
    assert ga == gb;
    TruesSplit(ScoredMask(a, guess, d), ga, ColorMask(a, guess, Orange, d));
    TruesSplit(ScoredMask(b, guess, d), gb, ColorMask(b, guess, Orange, d));
  }
}
