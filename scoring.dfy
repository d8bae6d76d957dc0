/**
 * The calls to the language model in utils.py. The model itself is not modelled:
 * each call's outcome is the next element of a script, which is an input. An
 * outcome is a quota error, any other error, or a reply whose text may be empty.
 * A call made after the script has run out fails like any other error.
 */
module ScoringClient {
  import opened Wrappers
  import opened PyStr

  datatype ApiOutcome = Exhausted | OtherError | Reply(text: string)

  /** The retry budget get_ats_score is called with. */
  const DefaultRetries: nat := 10

  /** The score returned and the number of outcomes of the script used up to get it. */
  datatype ScoreRun = ScoreRun(score: int, calls: nat)

  /** `int(text.strip())`, with the `ValueError` of a non-integer text caught as 0. */
  function ParseScore(text: string): (n: int)
  {
    match ParseInt(Strip(text))
    case Some(v) => v
    case None => 0
  }

  /** Outcomes after which get_ats_score calls the model again: a quota error or an empty reply. */
  predicate Retryable(o: ApiOutcome) {
    o == Exhausted || o == Reply("")
  }

  /** The number of quota errors in `outcomes`. */
  function Exhaustions(outcomes: seq<ApiOutcome>): (n: nat)
    ensures n <= |outcomes|
  {
    if outcomes == [] then 0
    else (if outcomes[0] == Exhausted then 1 else 0) + Exhaustions(outcomes[1..])
  }

  /**
   * What get_ats_score returns on the script `replies` with `retries` quota retries.
   * Only quota errors spend the budget; an empty reply is asked again for free; any
   * other error and any non-empty reply end the loop.
   */
  function AtsScore(replies: seq<ApiOutcome>, retries: nat): (run: ScoreRun)
    ensures run.calls <= |replies|
    decreases |replies|
  {
    if retries == 0 || replies == [] then ScoreRun(0, 0)
    else
      match replies[0]
      case Exhausted =>
        var rest := AtsScore(replies[1..], retries - 1);
        ScoreRun(rest.score, rest.calls + 1)
      case OtherError => ScoreRun(0, 1)
      case Reply(text) =>
        if text == "" then
          var rest := AtsScore(replies[1..], retries);
          ScoreRun(rest.score, rest.calls + 1)
        else ScoreRun(ParseScore(text), 1)
  }

  /** utils.get_ats_score: the retry loop. The rate-limit delay and the sleeps are left out. */
  method GetAtsScore(replies: seq<ApiOutcome>, retries: nat) returns (score: int, calls: nat)
    ensures ScoreRun(score, calls) == AtsScore(replies, retries)
  {
    var attempt := 0;
    calls := 0;
    while attempt < retries
      invariant attempt <= retries && calls <= |replies|
      invariant AtsScore(replies, retries) ==
                  var rest := AtsScore(replies[calls..], retries - attempt);
                  ScoreRun(rest.score, calls + rest.calls)
      decreases |replies| - calls
    {
      if calls == |replies| {
        return 0, calls;
      }
      var outcome := replies[calls];
      assert replies[calls..][1..] == replies[calls + 1..];
      calls := calls + 1;
      match outcome
      case Exhausted =>
        attempt := attempt + 1;
      case OtherError =>
        return 0, calls;
      case Reply(text) =>
        if text != "" {
          return ParseScore(text), calls;
        }
    }
    score := 0;
  }

  /**
   * The first outcome that is neither a quota error nor an empty reply decides the
   * score, provided fewer than `retries` quota errors come before it: a reply gives
   * its parsed text, an error gives 0, and no later outcome is used.
   */
  lemma {:induction false} FirstDecisiveOutcomeDecides(replies: seq<ApiOutcome>, retries: nat, d: nat)
    requires d < |replies| && !Retryable(replies[d])
    requires forall k :: 0 <= k < d ==> Retryable(replies[k])
    requires Exhaustions(replies[..d]) < retries
    ensures AtsScore(replies, retries) ==
              ScoreRun(if replies[d].Reply? then ParseScore(replies[d].text) else 0, d + 1)
  {
    if d > 0 {
      assert replies[..d][1..] == replies[1..][..d - 1];
      assert Retryable(replies[0]);
      FirstDecisiveOutcomeDecides(replies[1..], if replies[0] == Exhausted then retries - 1 else retries, d - 1);
    }
  }

  /**
   * When `retries` quota errors come before any decisive outcome, the loop gives up
   * right after the last of them and returns 0.
   */
  lemma {:induction false} GivesUpAfterRetries(replies: seq<ApiOutcome>, retries: nat, d: nat)
    requires d <= |replies|
    requires forall k :: 0 <= k < d ==> Retryable(replies[k])
    requires Exhaustions(replies[..d]) == retries
    requires d == 0 || replies[d - 1] == Exhausted
    ensures AtsScore(replies, retries) == ScoreRun(0, d)
  {
    if d > 0 {
      assert replies[..d][1..] == replies[1..][..d - 1];
      assert Retryable(replies[0]);
      if d == 1 {
        assert replies[..1] == [Exhausted];
        assert Exhaustions(replies[1..][..0]) == 0;
      }
      GivesUpAfterRetries(replies[1..], if replies[0] == Exhausted then retries - 1 else retries, d - 1);
    } else {
      assert replies[..0] == [];
    }
  }

  /** The loop never takes more than `retries` quota errors. */
  lemma {:induction false} AtMostRetriesExhaustions(replies: seq<ApiOutcome>, retries: nat)
    ensures Exhaustions(replies[..AtsScore(replies, retries).calls]) <= retries
  {
    var run := AtsScore(replies, retries);
    if retries == 0 || replies == [] {
      assert replies[..0] == [];
    } else {
      assert replies[..run.calls][1..] == replies[1..][..run.calls - 1];
      match replies[0]
      case Exhausted =>
        AtMostRetriesExhaustions(replies[1..], retries - 1);
      case OtherError =>
        assert replies[..1][1..] == [];
      case Reply(text) =>
        if text == "" {
          AtMostRetriesExhaustions(replies[1..], retries);
        } else {
          assert replies[..1][1..] == [];
        }
    }
  }

  /** The score is 0, or it is the integer in the reply at the last call the loop made. */
  predicate ScoreFromLastReply(replies: seq<ApiOutcome>, run: ScoreRun)
  {
    run.score != 0 ==>
      1 <= run.calls <= |replies| && replies[run.calls - 1].Reply? &&
      ParseInt(Strip(replies[run.calls - 1].text)) == Some(run.score)
  }

  /** A retryable first outcome hands the rest of the script to the next call, with its last reply. */
  lemma RetryKeepsLastReply(replies: seq<ApiOutcome>, retries: nat, budget: nat)
    requires retries > 0 && replies != [] && Retryable(replies[0])
    requires budget == if replies[0] == Exhausted then retries - 1 else retries
    requires ScoreFromLastReply(replies[1..], AtsScore(replies[1..], budget))
    ensures ScoreFromLastReply(replies, AtsScore(replies, retries))
  {
    var rest := AtsScore(replies[1..], budget);
    var run := AtsScore(replies, retries);
    assert run == ScoreRun(rest.score, rest.calls + 1);
    if rest.score != 0 {
      var last := replies[rest.calls];
      assert replies[1..][rest.calls - 1] == last;
      assert run.calls - 1 == rest.calls;
      assert last.Reply? && ParseInt(Strip(last.text)) == Some(run.score);
    }
  }

  /** A score other than 0 is the integer written in the last reply the loop read. */
  lemma {:induction false} NonZeroScoreIsParsed(replies: seq<ApiOutcome>, retries: nat)
    ensures ScoreFromLastReply(replies, AtsScore(replies, retries))
  {
    if retries > 0 && replies != [] {
      if Retryable(replies[0]) {
        var budget := if replies[0] == Exhausted then retries - 1 else retries;
        NonZeroScoreIsParsed(replies[1..], budget);
        RetryKeepsLastReply(replies, retries, budget);
      } else {
        DecisiveScoreIsParsed(replies, retries);
      }
    }
  }

  lemma DecisiveScoreIsParsed(replies: seq<ApiOutcome>, retries: nat)
    requires retries > 0 && replies != [] && !Retryable(replies[0])
    ensures ScoreFromLastReply(replies, AtsScore(replies, retries))
  {
    FirstDecisiveOutcomeDecides(replies, retries, 0);
  }

  /**
   * A reply holding the integer `n`, whatever its sign or size, between any
   * whitespace, parses to `n`.
   */
  lemma ParseScoreReadsInteger(pre: string, n: int, post: string)
    requires forall k :: 0 <= k < |pre| ==> IsSpace(pre[k])
    requires forall k :: 0 <= k < |post| ==> IsSpace(post[k])
    ensures ParseScore(pre + IntStr(n) + post) == n
  {
    StripPadded(pre, IntStr(n), post);
    ParseDecimal(n);
  }

  /**
   * The score is not clamped to 0..100: when the first decisive outcome is a reply
   * holding the integer `n`, the score is `n`.
   */
  lemma ScoreIsUnclamped(replies: seq<ApiOutcome>, retries: nat, d: nat, pre: string, n: int, post: string)
    requires forall k :: 0 <= k < |pre| ==> IsSpace(pre[k])
    requires forall k :: 0 <= k < |post| ==> IsSpace(post[k])
    requires d < |replies| && replies[d] == Reply(pre + IntStr(n) + post)
    requires forall k :: 0 <= k < d ==> Retryable(replies[k])
    requires Exhaustions(replies[..d]) < retries
    ensures AtsScore(replies, retries) == ScoreRun(n, d + 1)
  {
    ParseScoreReadsInteger(pre, n, post);
    assert |replies[d].text| >= |IntStr(n)| > 0;
    FirstDecisiveOutcomeDecides(replies, retries, d);
  }

  /** Empty replies cost no budget: with a single retry, three of them still lead to the score. */
  lemma EmptyRepliesAreFree()
    ensures AtsScore([Reply(""), Reply(""), Reply(""), Reply("80")], 1) == ScoreRun(80, 4)
  {
    StripTrimmed("80");
    assert DigitsValue("80") == 80 by {
      assert "80"[..1] == "8";
    }
  }

  /** One quota error spends a budget of one, and the later reply is never read. */
  lemma BudgetSpent()
    ensures AtsScore([Exhausted, Reply("80")], 1) == ScoreRun(0, 1)
  {
  }

  /** A reply that is not an integer scores 0. */
  lemma PercentSignScoresZero()
    ensures AtsScore([Reply("85%"), Reply("90")], DefaultRetries) == ScoreRun(0, 1)
  {
    StripTrimmed("85%");
    assert !IsDigit("85%"[2]);
  }

  /** utils.get_ats_score_deprecated: a single call; any error or a non-integer reply gives 0. */
  function AtsScoreDeprecated(outcome: ApiOutcome): (score: int)
    ensures score != 0 ==> outcome.Reply? && ParseInt(Strip(outcome.text)) == Some(score)
    ensures outcome.Reply? && ParseInt(Strip(outcome.text)).Some? ==> score == ParseInt(Strip(outcome.text)).value
  {
    match outcome
    case Reply(text) => ParseScore(text)
    case _ => 0
  }

  /**
   * utils.get_candidate_info: the stripped reply text; an empty reply or any error
   * (a quota error included) gives `""`.
   */
  function CandidateInfo(outcome: ApiOutcome): (info: string)
    ensures info != [] ==> outcome.Reply? && info == Strip(outcome.text)
    ensures outcome.Reply? ==> (info == [] <==> forall k :: 0 <= k < |outcome.text| ==> IsSpace(outcome.text[k]))
    ensures info == [] || (!IsSpace(info[0]) && !IsSpace(info[|info| - 1]))
  {
    match outcome
    case Reply(text) => if text != "" then Strip(text) else ""
    case _ => ""
  }
}
