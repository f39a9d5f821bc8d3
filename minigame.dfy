/**
 * The key handling of combat_minigame in game/combat.py: the player types
 * digits 1-9 into a buffer of at most four, BACKSPACE drops the last one and
 * RETURN submits a full buffer as a guess. A guess equal to the secret wins;
 * otherwise the round ends once the attempts reach the allowance.
 *
 * Events arrive in batches (one `pygame.event.get()` per frame). As written,
 * every event of a batch is handled even after the round has ended, which
 * lets a lost round be turned into a victory (LateVictory). StepGuarded is
 * the corrected step that ignores events once the round is over, and
 * CombatMinigame runs that corrected loop.
 */
module Minigame {
  import opened Wrappers
  import opened Feedback

  /** One input event: BACKSPACE, RETURN, another key with its character, or a non-key event. */
  datatype Key = Backspace | Enter | Typed(ch: char) | Other

  /** The loop's state: the typed buffer, attempts used, the outcome flags and the submitted guesses. */
  datatype Round = Round(guess: seq<char>, attempt: nat, victory: bool, running: bool, guesses: seq<seq<char>>)

  const Initial: Round := Round([], 0, false, true, [])

  predicate IsDigit(c: char) {
    '1' <= c <= '9'
  }

  predicate AllDigits(s: seq<char>) {
    forall k :: 0 <= k < |s| ==> IsDigit(s[k])
  }

  /** The attempts a round can use: a non-positive allowance still admits the first guess. */
  function Cap(allowed: int): (cap: nat)
    ensures cap >= 1 && cap >= allowed
  {
    if allowed <= 1 then 1 else allowed
  }

  /** The handling of one event, as written: it does not look at `running`. */
  function Step(r: Round, key: Key, secret: seq<char>, allowed: int): Round {
    match key
    case Backspace =>
      if |r.guess| == 0 then r else r.(guess := r.guess[..|r.guess| - 1])
    case Enter =>
      if |r.guess| == Digits then
        var attempt := r.attempt + 1;
        var won := r.guess == secret;
        r.(guess := [],
           attempt := attempt,
           guesses := r.guesses + [r.guess],
           victory := r.victory || won,
           running := if won || attempt >= allowed then false else r.running)
      else r
    case Typed(ch) =>
      if IsDigit(ch) && |r.guess| < Digits then r.(guess := r.guess + [ch]) else r
    case Other => r
  }

  /** One batch of events, as written: every event is handled. */
  function RunBatch(r: Round, events: seq<Key>, secret: seq<char>, allowed: int): Round {
    if events == [] then r
    else Step(RunBatch(r, events[..|events| - 1], secret, allowed), events[|events| - 1], secret, allowed)
  }

  /** The corrected step: once the round is over, events are ignored. */
  function StepGuarded(r: Round, key: Key, secret: seq<char>, allowed: int): Round {
    if r.running then Step(r, key, secret, allowed) else r
  }

  function RunBatchGuarded(r: Round, events: seq<Key>, secret: seq<char>, allowed: int): Round {
    if events == [] then r
    else StepGuarded(RunBatchGuarded(r, events[..|events| - 1], secret, allowed), events[|events| - 1], secret, allowed)
  }

  /** The corrected round after a sequence of batches. */
  function Play(batches: seq<seq<Key>>, secret: seq<char>, allowed: int): Round {
    if batches == [] then Initial
    else RunBatchGuarded(Play(batches[..|batches| - 1], secret, allowed), batches[|batches| - 1], secret, allowed)
  }

  /**
   * What the corrected loop keeps: a buffer of at most four digits, one
   * submitted guess per attempt, attempts within the allowance (and below it
   * while running), victory exactly when the secret was guessed, and a round
   * over only by victory or by using up the attempts.
   */
  predicate Consistent(r: Round, secret: seq<char>, allowed: int) {
    && |r.guess| <= Digits && AllDigits(r.guess)
    && |r.guesses| == r.attempt
    && (forall k :: 0 <= k < |r.guesses| ==> |r.guesses[k]| == Digits && AllDigits(r.guesses[k]))
    && r.attempt <= Cap(allowed)
    && (r.running ==> r.attempt < Cap(allowed) && !r.victory)
    && (r.victory <==> secret in r.guesses)
    && (!r.running && !r.victory ==> r.attempt == Cap(allowed))
  }

  lemma InitialConsistent(secret: seq<char>, allowed: int)
    ensures Consistent(Initial, secret, allowed)
  {
  }

  /** BACKSPACE drops exactly the last typed digit (nothing when the buffer is empty). */
  lemma BackspaceDropsLast(r: Round, secret: seq<char>, allowed: int)
    ensures Step(r, Backspace, secret, allowed).guess == if r.guess == [] then [] else r.guess[..|r.guess| - 1]
    ensures Step(r, Backspace, secret, allowed).attempt == r.attempt
  {
  }

  /** Only RETURN on a full buffer uses an attempt, and it records that buffer as the guess. */
  lemma AttemptOnlyOnFullEnter(r: Round, key: Key, secret: seq<char>, allowed: int)
    ensures var r' := Step(r, key, secret, allowed);
            r'.attempt == if key == Enter && |r.guess| == Digits then r.attempt + 1 else r.attempt
    ensures key == Enter && |r.guess| == Digits ==> Step(r, key, secret, allowed).guesses == r.guesses + [r.guess]
  {
  }

  /** The corrected step keeps the round consistent. */
  lemma StepGuardedConsistent(r: Round, key: Key, secret: seq<char>, allowed: int)
    requires Consistent(r, secret, allowed)
    ensures Consistent(StepGuarded(r, key, secret, allowed), secret, allowed)
  {
    if r.running && key == Enter && |r.guess| == Digits {
      var r' := StepGuarded(r, key, secret, allowed);
      assert r'.guesses == r.guesses + [r.guess];
      assert secret in r'.guesses <==> secret in r.guesses || r.guess == secret;
    }
  }

  lemma {:induction false} RunBatchGuardedConsistent(r: Round, events: seq<Key>, secret: seq<char>, allowed: int)
    requires Consistent(r, secret, allowed)
    ensures Consistent(RunBatchGuarded(r, events, secret, allowed), secret, allowed)
  {
    if events != [] {
      RunBatchGuardedConsistent(r, events[..|events| - 1], secret, allowed);
      StepGuardedConsistent(RunBatchGuarded(r, events[..|events| - 1], secret, allowed), events[|events| - 1], secret, allowed);
    }
  }

  /** Every corrected round, after any batches, is consistent. */
  lemma {:induction false} PlayConsistent(batches: seq<seq<Key>>, secret: seq<char>, allowed: int)
    ensures Consistent(Play(batches, secret, allowed), secret, allowed)
  {
    if batches != [] {
      PlayConsistent(batches[..|batches| - 1], secret, allowed);
      RunBatchGuardedConsistent(Play(batches[..|batches| - 1], secret, allowed), batches[|batches| - 1], secret, allowed);
    }
  }

  /** In the corrected loop a finished round stays finished and unchanged. */
  lemma {:induction false} GameOverIsFinal(r: Round, events: seq<Key>, secret: seq<char>, allowed: int)
    requires !r.running
    ensures RunBatchGuarded(r, events, secret, allowed) == r
  {
    if events != [] {
      GameOverIsFinal(r, events[..|events| - 1], secret, allowed);
    }
  }

  /**
   * The round as written, with allowance 1 and secret 1234: one batch that
   * submits 5555 and then 1234. The first guess ends the round as a defeat,
   * but the rest of the batch is still handled and the second guess wins,
   * with two attempts used out of one. The corrected batch stops at the
   * defeat.
   */
  lemma LateVictory()
    ensures var five := [Typed('5'), Typed('5'), Typed('5'), Typed('5'), Enter];
            var batch := five + [Typed('1'), Typed('2'), Typed('3'), Typed('4'), Enter];
            var lost := RunBatch(Initial, five, "1234", 1);
            var r := RunBatch(Initial, batch, "1234", 1);
            && !lost.running && !lost.victory
            && r.victory && r.attempt == 2 && r.attempt > Cap(1)
            && RunBatchGuarded(Initial, batch, "1234", 1) == lost
  {
    var s := "1234";
    var five := [Typed('5'), Typed('5'), Typed('5'), Typed('5'), Enter];
    var rest := [Typed('1'), Typed('2'), Typed('3'), Typed('4'), Enter];
    var batch := five + rest;
    LostAfterFive(s);
    WinAfterLoss(s);
    RunBatchAppend(Initial, five, rest, s, 1);
    GuardedLostAfterFive(s);
    assert batch[..5] == five;
    GameOverFromPrefix(Initial, batch, 5, s, 1);
  }

  /** Handling one more event is one more step. */
  lemma RunBatchSnoc(r: Round, events: seq<Key>, key: Key, secret: seq<char>, allowed: int)
    ensures RunBatch(r, events + [key], secret, allowed) == Step(RunBatch(r, events, secret, allowed), key, secret, allowed)
  {
    assert (events + [key])[..|events|] == events;
  }

  lemma LostAfterFive(s: seq<char>)
    requires s == "1234"
    ensures RunBatch(Initial, [Typed('5'), Typed('5'), Typed('5'), Typed('5'), Enter], s, 1)
            == Round([], 1, false, false, ["5555"])
  {
    var k5 := Typed('5');
    var e := [k5, k5, k5, k5, Enter];
    assert e[..1][..0] == [];
    assert RunBatch(Initial, e[..1], s, 1) == Round("5", 0, false, true, []);
    assert e[..2][..1] == e[..1];
    assert RunBatch(Initial, e[..2], s, 1) == Round("55", 0, false, true, []);
    assert e[..3][..2] == e[..2];
    assert RunBatch(Initial, e[..3], s, 1) == Round("555", 0, false, true, []);
    assert e[..4][..3] == e[..3];
    assert RunBatch(Initial, e[..4], s, 1) == Round("5555", 0, false, true, []);
    assert e[..4] == e[..|e| - 1];
    assert "5555" != s;
  }

  lemma GuardedLostAfterFive(s: seq<char>)
    requires s == "1234"
    ensures RunBatchGuarded(Initial, [Typed('5'), Typed('5'), Typed('5'), Typed('5'), Enter], s, 1)
            == Round([], 1, false, false, ["5555"])
  {
    var k5 := Typed('5');
    var e := [k5, k5, k5, k5, Enter];
    assert e[..1][..0] == [];
    assert RunBatchGuarded(Initial, e[..1], s, 1) == Round("5", 0, false, true, []);
    assert e[..2][..1] == e[..1];
    assert RunBatchGuarded(Initial, e[..2], s, 1) == Round("55", 0, false, true, []);
    assert e[..3][..2] == e[..2];
    assert RunBatchGuarded(Initial, e[..3], s, 1) == Round("555", 0, false, true, []);
    assert e[..4][..3] == e[..3];
    assert RunBatchGuarded(Initial, e[..4], s, 1) == Round("5555", 0, false, true, []);
    assert e[..4] == e[..|e| - 1];
    assert "5555" != s;
  }

  lemma WinAfterLoss(s: seq<char>)
    requires s == "1234"
    ensures RunBatch(Round([], 1, false, false, ["5555"]), [Typed('1'), Typed('2'), Typed('3'), Typed('4'), Enter], s, 1)
            == Round([], 2, true, false, ["5555", "1234"])
  {
    var lost := Round([], 1, false, false, ["5555"]);
    var e := [Typed('1'), Typed('2'), Typed('3'), Typed('4'), Enter];
    RunBatchSnoc(lost, [], e[0], s, 1);
    assert [] + [e[0]] == e[..1];
    assert RunBatch(lost, e[..1], s, 1) == lost.(guess := "1");
    RunBatchSnoc(lost, e[..1], e[1], s, 1);
    assert e[..1] + [e[1]] == e[..2];
    assert RunBatch(lost, e[..2], s, 1) == lost.(guess := "12");
    RunBatchSnoc(lost, e[..2], e[2], s, 1);
    assert e[..2] + [e[2]] == e[..3];
    assert RunBatch(lost, e[..3], s, 1) == lost.(guess := "123");
    RunBatchSnoc(lost, e[..3], e[3], s, 1);
    assert e[..3] + [e[3]] == e[..4];
    assert RunBatch(lost, e[..4], s, 1) == lost.(guess := "1234");
    RunBatchSnoc(lost, e[..4], Enter, s, 1);
    assert e[..4] + [Enter] == e;
    assert ["5555"] + ["1234"] == ["5555", "1234"];
  }

  /** A batch split in two is handled as the first part followed by the second. */
  lemma {:induction false} RunBatchAppend(r: Round, a: seq<Key>, b: seq<Key>, secret: seq<char>, allowed: int)
    ensures RunBatch(r, a + b, secret, allowed) == RunBatch(RunBatch(r, a, secret, allowed), b, secret, allowed)
  {
    if b == [] {
      assert a + b == a;
    } else {
      assert (a + b)[..|a + b| - 1] == a + b[..|b| - 1];
      RunBatchAppend(r, a, b[..|b| - 1], secret, allowed);
    }
  }

  /** Once a prefix of the corrected batch has ended the round, the rest changes nothing. */
  lemma {:induction false} GameOverFromPrefix(r: Round, events: seq<Key>, n: nat, secret: seq<char>, allowed: int)
    requires n <= |events| && !RunBatchGuarded(r, events[..n], secret, allowed).running
    ensures RunBatchGuarded(r, events, secret, allowed) == RunBatchGuarded(r, events[..n], secret, allowed)
  {
    if n < |events| {
      var init := events[..|events| - 1];
      assert init[..n] == events[..n];
      GameOverFromPrefix(r, init, n, secret, allowed);
    } else {
      assert events[..n] == events;
    }
  }

  /** Handling the events of a batch one by one with the corrected step extends the batch run. */
  lemma RunBatchGuardedSnoc(r: Round, events: seq<Key>, k: nat, secret: seq<char>, allowed: int)
    requires k < |events|
    ensures RunBatchGuarded(r, events[..k + 1], secret, allowed)
            == StepGuarded(RunBatchGuarded(r, events[..k], secret, allowed), events[k], secret, allowed)
  {
    assert events[..k + 1][..k] == events[..k];
  }

  /**
   * The history matches the round: one entry per submitted guess, in order,
   * each scored by compute_feedback.
   */
  ghost predicate Recorded(history: seq<(seq<char>, seq<Color>)>, r: Round, secret: seq<char>)
    requires |secret| == Digits
  {
    && |history| == |r.guesses| == r.attempt
    && forall k :: 0 <= k < |history| ==>
         && history[k].0 == r.guesses[k]
         && |history[k].0| == Digits
         && IsFeedback(secret, history[k].0, history[k].1)
  }

  /**
   * combat_minigame with the corrected event loop. The secret and the
   * batches of events are parameters; drawing and the animation are not
   * modelled. Every submitted guess is scored with compute_feedback and kept
   * in the history. The result is the enemy's HP on victory, 0 on defeat,
   * and None when the events run out with the round still running.
   */
  method CombatMinigame(enemyHp: int, attemptsAllowed: int, secret: seq<char>, batches: seq<seq<Key>>)
    returns (result: Option<int>, history: seq<(seq<char>, seq<Color>)>)
    requires |secret| == Digits && AllDigits(secret)
    ensures var r := Play(batches, secret, attemptsAllowed);
            result == if r.running then None else Some(if r.victory then enemyHp else 0)
    ensures var r := Play(batches, secret, attemptsAllowed);
            |history| == |r.guesses| == r.attempt &&
            forall k :: 0 <= k < |history| ==> history[k].0 == r.guesses[k]
    ensures forall k :: 0 <= k < |history| ==>
              |history[k].0| == Digits && IsFeedback(secret, history[k].0, history[k].1)
  {
    var r := Initial;
    history := [];
    var b := 0;
    while b < |batches| && r.running
      invariant 0 <= b <= |batches|
      invariant r == Play(batches[..b], secret, attemptsAllowed)
      invariant Consistent(r, secret, attemptsAllowed)
      invariant Recorded(history, r, secret)
    {
      r, history := HandleBatch(r, batches[b], secret, attemptsAllowed, history);
      assert batches[..b + 1][..b] == batches[..b];
      b := b + 1;
    }
    if b < |batches| {
      PlayOverFromPrefix(batches, b, secret, attemptsAllowed);
    }
    assert batches[..|batches|] == batches;
    result := if r.running then None else Some(if r.victory then enemyHp else 0);
  }

  /**
   * One pass of `for event in pygame.event.get()`, corrected to stop once
   * the round is over: the round becomes the corrected run of the batch and
   * each RETURN on a full buffer adds the scored guess to the history.
   */
  method HandleBatch(start: Round, events: seq<Key>, secret: seq<char>, allowed: int,
                     history0: seq<(seq<char>, seq<Color>)>)
    returns (r: Round, history: seq<(seq<char>, seq<Color>)>)
    requires |secret| == Digits
    requires Consistent(start, secret, allowed) && Recorded(history0, start, secret)
    ensures r == RunBatchGuarded(start, events, secret, allowed)
    ensures Consistent(r, secret, allowed) && Recorded(history, r, secret)
  {
    r, history := start, history0;
    var i := 0;
    while i < |events| && r.running
      invariant 0 <= i <= |events|
      invariant r == RunBatchGuarded(start, events[..i], secret, allowed)
      invariant Consistent(r, secret, allowed)
      invariant Recorded(history, r, secret)
    {
      RunBatchGuardedSnoc(start, events, i, secret, allowed);
      StepGuardedConsistent(r, events[i], secret, allowed);
      if events[i] == Enter && |r.guess| == Digits {
        var feedback := ComputeFeedback(secret, r.guess);
        history := history + [(r.guess, feedback)];
      }
      r := Step(r, events[i], secret, allowed);
      i := i + 1;
    }
    if i < |events| {
      GameOverFromPrefix(start, events, i, secret, allowed);
    }
    assert events[..|events|] == events;
  }

  /** Batches after the corrected round has ended change nothing. */
  lemma {:induction false} PlayOverFromPrefix(batches: seq<seq<Key>>, n: nat, secret: seq<char>, allowed: int)
    requires n <= |batches| && !Play(batches[..n], secret, allowed).running
    ensures Play(batches, secret, allowed) == Play(batches[..n], secret, allowed)
  {
    if n < |batches| {
      var init := batches[..|batches| - 1];
      assert init[..n] == batches[..n];
      PlayOverFromPrefix(init, n, secret, allowed);
      GameOverIsFinal(Play(init, secret, allowed), batches[|batches| - 1], secret, allowed);
    } else {
      assert batches[..n] == batches;
    }
  }

  /**
   * The outcome of the corrected round: a victory means the secret was one
   * of at most Cap(allowed) guesses; a defeat means every allowed attempt
   * was used and none guessed it.
   */
  lemma Outcome(batches: seq<seq<Key>>, secret: seq<char>, allowed: int)
    ensures var r := Play(batches, secret, allowed);
            && (r.victory ==> !r.running && secret in r.guesses && |r.guesses| <= Cap(allowed))
            && (!r.running && !r.victory ==> secret !in r.guesses && |r.guesses| == Cap(allowed))
  {
    PlayConsistent(batches, secret, allowed);
  }
}
