/**
 * The player's score: `answer` counts every guess in `attempts` and keeps
 * the run of correct guesses in `streak`, judging a guess against the
 * subreddit of the article currently shown.
 */
module Scoring {
  import opened Js
  import Decoding

  /** The value of the global `user` at one moment. */
  datatype Score = Score(attempts: nat, streak: nat)

  /** The zeroed player information the page starts with. */
  const ZERO := Score(0, 0)

  /** A guess is right when it equals the shown article's subreddit (`userAnswer == currentArticle.from`). */
  predicate IsCorrect(userAnswer: string, from: Nullable<string>)
  {
    from == NonNull(userAnswer)
  }

  /** The score after one guess. */
  function Scored(s: Score, correct: bool): (t: Score)
  {
    Score(s.attempts + 1, if correct then s.streak + 1 else 0)
  }

  /** The score after the guesses `answers` (true for a correct one), oldest first. */
  function Replay(s: Score, answers: seq<bool>): (t: Score)
  {
    if answers == [] then s
    else Scored(Replay(s, answers[..|answers| - 1]), answers[|answers| - 1])
  }

  /** The number of correct guesses at the end of `answers` since the last wrong one. */
  function TrailingRun(answers: seq<bool>): (n: nat)
    ensures n <= |answers|
    ensures forall j :: |answers| - n <= j < |answers| ==> answers[j]
    ensures n < |answers| ==> !answers[|answers| - 1 - n]
  {
    if answers == [] || !answers[|answers| - 1] then 0
    else TrailingRun(answers[..|answers| - 1]) + 1
  }

  /**
   * From the zeroed player, `attempts` is the number of guesses and `streak`
   * the number of correct guesses since the last wrong one; so the streak
   * never exceeds the attempts.
   */
  lemma {:induction false} ReplayFromZero(answers: seq<bool>)
    ensures Replay(ZERO, answers) == Score(|answers|, TrailingRun(answers))
    ensures Replay(ZERO, answers).streak <= Replay(ZERO, answers).attempts
  {
    if answers != [] {
      ReplayFromZero(answers[..|answers| - 1]);
    }
  }

  /** Two guesses add exactly two attempts, whatever their outcome. */
  lemma {:induction false} TwoGuessesTwoAttempts(s: Score, first: bool, second: bool)
    ensures Replay(s, [first, second]).attempts == s.attempts + 2
    ensures Replay(s, [first, second]).streak == if second then (if first then s.streak + 2 else 1) else 0
  {
    assert [first, second][..1] == [first];
    assert [first][..0] == [];
    assert Replay(s, [first]) == Scored(Replay(s, []), first);
    assert Replay(s, [first, second]) == Scored(Replay(s, [first]), second);
  }

  /** The global `user`, whose counters `answer` updates in place. */
  class User {
    var attempts: nat
    var streak: nat
    /** Every guess so far, oldest first, true for a correct one. */
    ghost var answers: seq<bool>

    function Snapshot(): (s: Score)
      reads this
    {
      Score(attempts, streak)
    }

    /** The counters are those the guesses so far produce from zero. */
    ghost predicate Valid()
      reads this
    {
      Snapshot() == Replay(ZERO, answers)
    }

    constructor ()
      ensures Valid() && Snapshot() == ZERO && answers == []
    {
      attempts, streak := 0, 0;
      answers := [];
    }

    /**
     * answer(userAnswer): one more attempt; the streak grows by one on a
     * correct guess and drops to 0 on a wrong one. The article is only read.
     */
    method Answer(userAnswer: string, article: Decoding.CurrentArticle) returns (correct: bool)
      requires Valid()
      modifies this
      ensures Valid()
      ensures correct <==> IsCorrect(userAnswer, article.from)
      ensures attempts == old(attempts) + 1
      ensures streak == if correct then old(streak) + 1 else 0
      ensures answers == old(answers) + [correct]
      ensures streak <= attempts
      ensures unchanged(article)
    {
      attempts := attempts + 1;
      correct := article.from == NonNull(userAnswer);
      if correct {
        streak := streak + 1;
      } else {
        streak := 0;
      }
      answers := answers + [correct];
      assert answers[..|answers| - 1] == old(answers);
      ReplayFromZero(answers);
    }
  }

  /**
   * Against the lower-cased subreddit stored in `from`, a guess written in
   * lower case is correct exactly when it names the subreddit in any case.
   */
  lemma CorrectIffSameIgnoringCase(subreddit: string, guess: string)
    requires forall i :: 0 <= i < |guess| ==> !('A' <= guess[i] <= 'Z')
    ensures IsCorrect(guess, NonNull(ToLower(subreddit))) <==> ToLower(subreddit) == ToLower(guess)
  {
    ToLowerOfLower(guess);
  }

  /**
   * A guess of "theonion" is correct for an article decoded from r/TheOnion,
   * whatever list of substrings the title check uses: the subreddit is
   * lower-cased before it is compared.
   */
  lemma {:induction false} MixedCaseSubredditMatches(a: Decoding.Article, raw: Decoding.RawArticle, checks: seq<string>)
    requires raw.title.NonNull? && !Decoding.HasBadWord(raw.title.value, checks)
    requires raw.kind.NonNull? && !Decoding.IsSelfPost(raw.kind.value)
    requires raw.subreddit == NonNull("TheOnion") && raw.preview.NonNull?
    ensures Decoding.Step(a, NonNull(raw), checks).outcome == Decoding.Displayed
    ensures IsCorrect(Decoding.THE_ONION, Decoding.Step(a, NonNull(raw), checks).article.from)
  {
    var lower := ToLower("TheOnion");
    assert lower[0] == 't' && lower[1] == 'h' && lower[2] == 'e' && lower[3] == 'o';
    assert lower[4..] == "nion";
    CorrectIffSameIgnoringCase("TheOnion", Decoding.THE_ONION);
  }
}
