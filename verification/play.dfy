/**
 Whole `play` sessions: `playCmd` runs `bucle` on every id `settingUp` collected, with score 0.
 */
module PlayCommand {
  import opened Ids
  import opened Quizzes
  import opened Pick
  import opened Session

  /** With no quizzes `text[0]` is `undefined`, `validateId` rejects it and nobody catches the
      rejection: nothing is asked, no score is reported and the prompt is not offered again. */
  lemma PlayEmptyStore(draws: seq<nat>, answers: seq<string>)
    ensures Play([], draws, answers) == Run([], Aborted(MissingArgument))
  {
    assert Aleatorio([], Head(draws)).id.None?;
  }

  /** The ids `settingUp` collects from a store with unique keys can be drawn validly. */
  lemma SetUpDrawable(store: Store, draws: seq<nat>)
    requires UniqueIds(store) && ValidDraws(draws, |store|)
    ensures Drawable(store, SettingUp(store), draws)
  {
    var ids := SettingUp(store);
    SettingUpDistinct(store);
    forall i | 0 <= i < |ids|
      ensures Lookup(store, ids[i]).Some?
    {
      SettingUpKeys(store, ids[i]);
    }
  }

  /** Valid draws put the ids `settingUp` collects into an order without repetitions. */
  lemma SetUpOrder(store: Store, draws: seq<nat>)
    requires UniqueIds(store) && ValidDraws(draws, |store|)
    ensures var d := Order(SettingUp(store), draws);
      |d| == |store| && Distinct(d) && multiset(d) == multiset(SettingUp(store))
  {
    SettingUpDistinct(store);
    OrderPermutes(SettingUp(store), draws);
  }

  /** `asked` and `o` are what a session that follows the order `d` asks and ends with: the ids up
      to and including the first wrong answer, and the outcome `Ending` gives from 0 points. */
  predicate Closed(store: Store, d: seq<int>, answers: seq<string>, asked: seq<int>, o: Outcome)
  {
    var c := Leading(store, d, answers);
    asked == d[..if c < |d| then c + 1 else c] && o == Ending(c, |d|, |answers|, 0)
  }

  /** A whole session on a non-empty store asks the ids in the drawn order until the first wrong
      or missing answer and ends as `Ending` says, starting from 0 points. */
  lemma PlayFollowsOrder(store: Store, draws: seq<nat>, answers: seq<string>)
    requires UniqueIds(store) && store != [] && ValidDraws(draws, |store|)
    ensures var s := Play(store, draws, answers);
      Closed(store, Order(SettingUp(store), draws), answers, Asked(s.trace), s.outcome)
  {
    var ids := SettingUp(store);
    SetUpDrawable(store, draws);
    SetUpOrder(store, draws);
    BucleFollowsOrder(store, ids, 0, draws, answers);
    ExpectClosedForm(store, Order(ids, draws), 0, answers);
  }

  /** No id is asked twice, every asked id is a quiz of the store, and there are at most as many
      questions as quizzes. */
  lemma PlayAsksEachIdOnce(store: Store, draws: seq<nat>, answers: seq<string>)
    requires UniqueIds(store) && store != [] && ValidDraws(draws, |store|)
    ensures var asked := Asked(Play(store, draws, answers).trace);
      && Distinct(asked)
      && (forall x :: x in asked ==> x in SettingUp(store))
      && |asked| <= |store|
  {
    PlayFollowsOrder(store, draws, answers);
    SetUpOrder(store, draws);
    var s := Play(store, draws, answers);
    var d := Order(SettingUp(store), draws);
    ClosedAsksPrefix(store, d, answers, Asked(s.trace), s.outcome);
    PrefixOfPermutation(Asked(s.trace), d, SettingUp(store));
  }

  lemma ClosedAsksPrefix(store: Store, d: seq<int>, answers: seq<string>, asked: seq<int>, o: Outcome)
    requires Closed(store, d, answers, asked, o)
    ensures asked <= d
  {
  }

  /** A prefix of a duplicate-free rearrangement of `ids` is duplicate-free and draws from `ids`. */
  lemma PrefixOfPermutation(p: seq<int>, d: seq<int>, ids: seq<int>)
    requires p <= d && Distinct(d) && multiset(d) == multiset(ids)
    ensures Distinct(p) && |p| <= |d|
    ensures forall x :: x in p ==> x in ids
  {
    forall x | x in p
      ensures x in ids
    {
      assert x in d;
      assert x in multiset(d);
    }
  }

  /** The final score is the number of right answers, reported as the running scores count them,
      and at most the number of quizzes. */
  lemma PlayScore(store: Store, draws: seq<nat>, answers: seq<string>)
    requires UniqueIds(store) && store != [] && ValidDraws(draws, |store|)
    ensures var s := Play(store, draws, answers);
      var c := Leading(store, Order(SettingUp(store), draws), answers);
      && !s.outcome.Aborted?
      && s.outcome.score == c == |Scores(s.trace)|
      && c <= |store|
  {
    PlayFollowsOrder(store, draws, answers);
    SetUpOrder(store, draws);
    BucleReports(store, SettingUp(store), 0, draws, answers);
  }

  /** Every asked id has an answer, and that answer is right for its quiz. */
  predicate AllRight(store: Store, asked: seq<int>, answers: seq<string>)
  {
    forall i :: 0 <= i < |asked| ==> i < |answers| && RightFor(store, asked[i], answers[i])
  }

  /** The game is won exactly when every quiz was asked and every answer was right. */
  lemma PlayWonIff(store: Store, draws: seq<nat>, answers: seq<string>)
    requires UniqueIds(store) && store != [] && ValidDraws(draws, |store|)
    ensures var s := Play(store, draws, answers);
      var asked := Asked(s.trace);
      s.outcome.Won? <==> |asked| == |store| && AllRight(store, asked, answers)
  {
    var s := Play(store, draws, answers);
    var d := Order(SettingUp(store), draws);
    PlayFollowsOrder(store, draws, answers);
    SetUpOrder(store, draws);
    WonIffAllRight(store, d, answers, Asked(s.trace), s.outcome);
  }

  /** A session that follows `d` is won exactly when all of `d` was asked and answered right. */
  lemma WonIffAllRight(store: Store, d: seq<int>, answers: seq<string>, asked: seq<int>, o: Outcome)
    requires Closed(store, d, answers, asked, o)
    ensures o.Won? <==> |asked| == |d| && AllRight(store, asked, answers)
  {
    var c := Leading(store, d, answers);
    LeadingIsFirstWrong(store, d, answers);
    if c < |d| && |asked| == |d| {
      assert asked[c] == d[c];
    }
  }
}
