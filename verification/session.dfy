/**
 The `play` command: `settingUp` collects every quiz id, then `bucle` draws one pending id per
 round with `aleatorio`, validates it, looks it up, asks its question and compares the answer
 with `limpia`, until an answer is wrong or nothing is left to ask.

 The random draws and the lines the user types are inputs; what the command shows is a trace of
 events, and how it stops is an outcome.
 */
module Session {
  import opened Wrappers
  import opened Text
  import opened Normalize
  import opened Ids
  import opened Quizzes
  import opened Pick
  import opened Events

  /** How the session stops. `Aborted` is a rejection nobody catches: nothing is reported and the
      prompt is not offered again. `Waiting` means the typed lines ran out while a question was
      open. */
  datatype Outcome =
    | Won(score: nat)
    | Lost(score: nat)
    | Aborted(error: Error)
    | Waiting(score: nat)

  /** One run of the `play` command: what it showed and how it stopped. */
  datatype Run = Run(trace: seq<Event>, outcome: Outcome)

  predicate Finished(o: Outcome)
  {
    o.Won? || o.Lost?
  }

  /** The random index drawn in a round; with nothing left to draw from it is 0. */
  function Head(draws: seq<nat>): nat
  {
    if draws == [] then 0 else draws[0]
  }

  function Tail(draws: seq<nat>): seq<nat>
  {
    if draws == [] then [] else draws[1..]
  }

  /** `validateId(a)` receives the drawn number itself; `parseInt` reads it through `String(a)`. */
  function AsArgument(id: Option<int>): Option<string>
  {
    match id
    case None => None
    case Some(n) => Some(Render(n))
  }

  /** The typed answer (trimmed by `makeQuestion`) is right for quiz `q`: the comparison of
      `Normalize.Judge`, written out so that the session proofs do not carry its contract. */
  predicate Right(q: Quiz, answer: string)
  {
    Matches(Trim(answer), q.answer)
  }

  /** `bucle(id, text, rl, score)`: one round on the pending ids, then `Round` for the quiz found.
      A failed `validateId` or a missing row rejects a promise no one waits for. */
  function Bucle(store: Store, pending: seq<int>, score: nat, draws: seq<nat>, answers: seq<string>): (s: Run)
    decreases |pending|, 1
  {
    var picked := Aleatorio(pending, Head(draws));
    match ValidateId(AsArgument(picked.id))
    case Failure(e) => Run([], Aborted(e))
    case Success(id) =>
      match Lookup(store, id)
      case None => Run([], Aborted(NotFound))
      case Some(q) => Round(store, q, picked.rest, score, Tail(draws), answers)
  }

  /** Asks `q`'s question and judges the next typed line. A right answer scores and either goes
      on with what is pending or, with nothing pending, ends the game won; a wrong one ends it. */
  function Round(store: Store, q: Quiz, rest: seq<int>, score: nat, draws: seq<nat>, answers: seq<string>): (s: Run)
    decreases |rest| + 1, 0
  {
    var ask := Ask(q.id, q.question + "? ");
    if answers == [] then Run([ask], Waiting(score))
    else if Right(q, answers[0]) then
      if |rest| != 0 then
        var next := Bucle(store, rest, score + 1, draws, answers[1..]);
        Run([ask, Correct(score + 1)] + next.trace, next.outcome)
      else
        Run([ask, Correct(score + 1), NothingMore, GameOver(score + 1), Prompt], Won(score + 1))
    else
      Run([ask, Incorrect, GameOver(score), Prompt], Lost(score))
  }

  /** `playCmd`: the ids of the whole store, a score of 0, and the loop. */
  function Play(store: Store, draws: seq<nat>, answers: seq<string>): Run
  {
    Bucle(store, SettingUp(store), 0, draws, answers)
  }

  // ---------------------------------------------------------------------------------------
  // Reading a trace

  /** The ids whose question was asked, in order. */
  function Asked(trace: seq<Event>): seq<int>
  {
    if trace == [] then []
    else (if trace[0].Ask? then [trace[0].id] else []) + Asked(trace[1..])
  }

  /** The running scores announced after each right answer. */
  function Scores(trace: seq<Event>): seq<nat>
  {
    if trace == [] then []
    else (if trace[0].Correct? then [trace[0].score] else []) + Scores(trace[1..])
  }

  /** The final scores reported. */
  function Reports(trace: seq<Event>): seq<nat>
  {
    if trace == [] then []
    else (if trace[0].GameOver? then [trace[0].score] else []) + Reports(trace[1..])
  }

  // ---------------------------------------------------------------------------------------
  // A reference description of a session

  /** The random indices are the ones `Math.floor(Math.random() * text.length)` can give: the
      `i`-th is below the number of ids still pending then. */
  predicate ValidDraws(draws: seq<nat>, n: nat)
  {
    forall i :: 0 <= i < |draws| && i < n ==> draws[i] < n - i
  }

  /** The order in which the draws take the pending ids out, one position at a time. */
  function Order(pending: seq<int>, draws: seq<nat>): seq<int>
    decreases |pending|
  {
    var k := Head(draws);
    if k >= |pending| then []
    else [pending[k]] + Order(pending[..k] + pending[k + 1..], Tail(draws))
  }

  /** The quiz with key `id` exists and `answer` is right for it. */
  predicate RightFor(store: Store, id: int, answer: string)
  {
    match Lookup(store, id)
    case None => false
    case Some(q) => Right(q, answer)
  }

  /** How many of the ids in `order` are answered right before the first wrong or missing answer. */
  function Leading(store: Store, order: seq<int>, answers: seq<string>): (c: nat)
    ensures c <= |order| && c <= |answers|
  {
    if order == [] || answers == [] || !RightFor(store, order[0], answers[0]) then 0
    else 1 + Leading(store, order[1..], answers[1..])
  }

  /** Every id in `ids` names a row of the store. */
  predicate Known(store: Store, ids: seq<int>)
  {
    forall i :: 0 <= i < |ids| ==> Lookup(store, ids[i]).Some?
  }

  /** The pending ids are distinct and known, and the draws valid for them. */
  predicate Drawable(store: Store, pending: seq<int>, draws: seq<nat>)
  {
    Distinct(pending) && Known(store, pending) && ValidDraws(draws, |pending|)
  }

  // ---------------------------------------------------------------------------------------
  // Properties

  /** `Leading` counts exactly the right answers before the first wrong or missing one. */
  lemma {:induction false} LeadingIsFirstWrong(store: Store, order: seq<int>, answers: seq<string>)
    ensures var c := Leading(store, order, answers);
      && (forall i :: 0 <= i < c ==> RightFor(store, order[i], answers[i]))
      && (c < |order| && c < |answers| ==> !RightFor(store, order[c], answers[c]))
    decreases |order|
  {
    if order != [] && answers != [] && RightFor(store, order[0], answers[0]) {
      var rest, replies := order[1..], answers[1..];
      LeadingIsFirstWrong(store, rest, replies);
      var c := Leading(store, order, answers);
      assert c == 1 + Leading(store, rest, replies);
      forall i | 0 <= i < c
        ensures RightFor(store, order[i], answers[i])
      {
        if i > 0 {
          assert rest[i - 1] == order[i] && replies[i - 1] == answers[i];
        }
      }
      if c < |order| && c < |answers| {
        assert rest[c - 1] == order[c] && replies[c - 1] == answers[c];
      }
    }
  }

  /** Valid draws take every pending id out exactly once. */
  lemma {:induction false} OrderPermutes(pending: seq<int>, draws: seq<nat>)
    requires Distinct(pending) && ValidDraws(draws, |pending|)
    ensures var d := Order(pending, draws);
      |d| == |pending| && Distinct(d) && multiset(d) == multiset(pending)
    decreases |pending|
  {
    if pending != [] {
      var k := Head(draws);
      assert k < |pending| by {
        if draws != [] {
          assert draws[0] < |pending| - 0;
        }
      }
      var rest := pending[..k] + pending[k + 1..];
      RemoveAt(pending, k);
      TailValid(draws, |pending|);
      OrderPermutes(rest, Tail(draws));
      var e := Order(rest, Tail(draws));
      assert Order(pending, draws) == [pending[k]] + e;
      assert pending[k] !in e by {
        assert pending[k] !in multiset(rest);
      }
      ConsDistinct(pending[k], e);
    }
  }

  /** After a valid draw from `n` ids the remaining draws are valid for `n - 1`. */
  lemma TailValid(draws: seq<nat>, n: nat)
    requires ValidDraws(draws, n) && n > 0
    ensures ValidDraws(Tail(draws), n - 1)
  {
    if draws != [] {
      forall i | 0 <= i < |Tail(draws)| && i < n - 1
        ensures Tail(draws)[i] < n - 1 - i
      {
        assert Tail(draws)[i] == draws[i + 1];
      }
    }
  }

  lemma ConsDistinct(x: int, e: seq<int>)
    requires Distinct(e) && x !in e
    ensures Distinct([x] + e)
  {
    var d := [x] + e;
    forall i, j | 0 <= i < j < |d|
      ensures d[i] != d[j]
    {
      if i == 0 {
        assert d[j] == e[j - 1] && e[j - 1] in e;
      } else {
        assert d[i] == e[i - 1] && d[j] == e[j - 1];
      }
    }
  }

  lemma TraceCons(e: Event, t: seq<Event>)
    ensures Asked([e] + t) == (if e.Ask? then [e.id] else []) + Asked(t)
    ensures Scores([e] + t) == (if e.Correct? then [e.score] else []) + Scores(t)
    ensures Reports([e] + t) == (if e.GameOver? then [e.score] else []) + Reports(t)
  {
    assert ([e] + t)[1..] == t;
  }

  /** A right answer with ids still pending: the question and the new score, then the rest of
      the session. */
  lemma TraceOfRightRound(q: Quiz, score: nat, t: seq<Event>)
    ensures var trace := [Ask(q.id, q.question + "? "), Correct(score + 1)] + t;
      && Asked(trace) == [q.id] + Asked(t)
      && Scores(trace) == [score + 1] + Scores(t)
      && Reports(trace) == Reports(t)
  {
    var ask := Ask(q.id, q.question + "? ");
    assert [ask, Correct(score + 1)] + t == [ask] + ([Correct(score + 1)] + t);
    TraceCons(ask, [Correct(score + 1)] + t);
    TraceCons(Correct(score + 1), t);
  }

  /** One round of a session drawn validly from known, distinct ids: the id at the drawn index
      is validated and found, and the round asks its quiz. */
  lemma BucleStep(store: Store, pending: seq<int>, score: nat, draws: seq<nat>, answers: seq<string>)
    requires Distinct(pending) && Known(store, pending) && Head(draws) < |pending|
    ensures var k := Head(draws);
      var q := Lookup(store, pending[k]);
      && q.Some? && q.value.id == pending[k]
      && Bucle(store, pending, score, draws, answers)
         == Round(store, q.value, pending[..k] + pending[k + 1..], score, Tail(draws), answers)
  {
    var k := Head(draws);
    AleatorioDistinct(pending, k);
    ValidateRendered(pending[k]);
  }

  lemma TraceOfOpenRound(q: Quiz)
    ensures var t := [Ask(q.id, q.question + "? ")];
      Asked(t) == [q.id] && Scores(t) == [] && Reports(t) == []
  {
    TraceCons(Ask(q.id, q.question + "? "), []);
  }

  lemma TraceOfWrongRound(q: Quiz, score: nat)
    ensures var t := [Ask(q.id, q.question + "? "), Incorrect, GameOver(score), Prompt];
      Asked(t) == [q.id] && Scores(t) == [] && Reports(t) == [score]
  {
    var ask := Ask(q.id, q.question + "? ");
    assert [ask, Incorrect, GameOver(score), Prompt] == [ask] + ([Incorrect] + ([GameOver(score)] + [Prompt]));
    TraceCons(Prompt, []);
    TraceCons(GameOver(score), [Prompt]);
    TraceCons(Incorrect, [GameOver(score)] + [Prompt]);
    TraceCons(ask, [Incorrect] + ([GameOver(score)] + [Prompt]));
  }

  lemma TraceOfLastRound(q: Quiz, score: nat)
    ensures var t := [Ask(q.id, q.question + "? "), Correct(score), NothingMore, GameOver(score), Prompt];
      Asked(t) == [q.id] && Scores(t) == [score] && Reports(t) == [score]
  {
    var ask := Ask(q.id, q.question + "? ");
    var end := [NothingMore] + ([GameOver(score)] + [Prompt]);
    assert [ask, Correct(score), NothingMore, GameOver(score), Prompt] == [ask] + ([Correct(score)] + end);
    TraceCons(Prompt, []);
    TraceCons(GameOver(score), [Prompt]);
    TraceCons(NothingMore, [GameOver(score)] + [Prompt]);
    TraceCons(Correct(score), end);
    TraceCons(ask, [Correct(score)] + end);
  }

  /** What a session should show once the draws are known to come out in the order `d`: the ids
      asked and how it ends. An empty order is the rejected draw from an empty array. */
  datatype Script = Script(asked: seq<int>, outcome: Outcome)

  function Expect(store: Store, d: seq<int>, score: nat, answers: seq<string>): Script
    decreases |d|
  {
    if d == [] then Script([], Aborted(MissingArgument))
    else if answers == [] then Script([d[0]], Waiting(score))
    else if !RightFor(store, d[0], answers[0]) then Script([d[0]], Lost(score))
    else if |d| == 1 then Script([d[0]], Won(score + 1))
    else
      var r := Expect(store, d[1..], score + 1, answers[1..]);
      Script([d[0]] + r.asked, r.outcome)
  }

  predicate Shows(s: Run, x: Script)
  {
    Asked(s.trace) == x.asked && s.outcome == x.outcome
  }

  /** A session drawn validly from known, distinct ids shows what `Expect` says of the order in
      which the draws take them out. */
  lemma {:induction false} BucleFollowsOrder(store: Store, pending: seq<int>, score: nat, draws: seq<nat>, answers: seq<string>)
    requires pending != [] && Drawable(store, pending, draws)
    ensures Shows(Bucle(store, pending, score, draws, answers), Expect(store, Order(pending, draws), score, answers))
    decreases |pending|, 2
  {
    var k := Head(draws);
    assert k < |pending| by {
      if draws != [] {
        assert draws[0] < |pending| - 0;
      }
    }
    BucleStep(store, pending, score, draws, answers);
    var q := Lookup(store, pending[k]).value;
    var rest := pending[..k] + pending[k + 1..];
    assert Order(pending, draws) == [q.id] + Order(rest, Tail(draws));
    RestOfDraw(store, pending, k);
    TailValid(draws, |pending|);
    RoundFollowsOrder(store, q, rest, score, Tail(draws), answers);
  }

  /** The same for a round on quiz `q` with `rest` still pending. */
  lemma {:induction false} RoundFollowsOrder(store: Store, q: Quiz, rest: seq<int>, score: nat, draws: seq<nat>, answers: seq<string>)
    requires Lookup(store, q.id) == Some(q) && Drawable(store, rest, draws)
    ensures Shows(Round(store, q, rest, score, draws, answers), Expect(store, [q.id] + Order(rest, draws), score, answers))
    decreases |rest| + 1, 1
  {
    var d := [q.id] + Order(rest, draws);
    assert d[0] == q.id && |d| == 1 + |Order(rest, draws)|;
    if answers == [] {
      TraceOfOpenRound(q);
    } else if !Right(q, answers[0]) {
      TraceOfWrongRound(q, score);
    } else if rest == [] {
      TraceOfLastRound(q, score + 1);
    } else {
      RightRoundFollowsOrder(store, q, rest, score, draws, answers);
    }
  }

  lemma {:induction false} RightRoundFollowsOrder(store: Store, q: Quiz, rest: seq<int>, score: nat, draws: seq<nat>, answers: seq<string>)
    requires Lookup(store, q.id) == Some(q) && Drawable(store, rest, draws)
    requires answers != [] && Right(q, answers[0]) && rest != []
    ensures Shows(Round(store, q, rest, score, draws, answers), Expect(store, [q.id] + Order(rest, draws), score, answers))
    decreases |rest| + 1, 0
  {
    var e := Order(rest, draws);
    OrderPermutes(rest, draws);
    ExpectAfterRight(store, q, e, score, answers);
    BucleFollowsOrder(store, rest, score + 1, draws, answers[1..]);
    RightRound(store, q, rest, score, draws, answers);
    TraceOfRightRound(q, score, Bucle(store, rest, score + 1, draws, answers[1..]).trace);
  }

  lemma ExpectAfterRight(store: Store, q: Quiz, e: seq<int>, score: nat, answers: seq<string>)
    requires Lookup(store, q.id) == Some(q) && answers != [] && Right(q, answers[0]) && e != []
    ensures var r := Expect(store, e, score + 1, answers[1..]);
      Expect(store, [q.id] + e, score, answers) == Script([q.id] + r.asked, r.outcome)
  {
    assert ([q.id] + e)[1..] == e;
  }

  /** A right answer with ids still pending scores and hands the rest to the next round. */
  lemma RightRound(store: Store, q: Quiz, rest: seq<int>, score: nat, draws: seq<nat>, answers: seq<string>)
    requires answers != [] && Right(q, answers[0]) && rest != []
    ensures var next := Bucle(store, rest, score + 1, draws, answers[1..]);
      Round(store, q, rest, score, draws, answers)
        == Run([Ask(q.id, q.question + "? "), Correct(score + 1)] + next.trace, next.outcome)
  {
  }

  /** How a session that got `c` right answers out of `n` questions, with `m` lines typed, ends:
      won when all were right, lost at a wrong typed answer, waiting when the lines ran out. */
  function Ending(c: nat, n: nat, m: nat, score: nat): Outcome
  {
    if c == n then Won(score + c) else if c < m then Lost(score + c) else Waiting(score + c)
  }

  /** `Expect` in closed form: the first `c + 1` ids of `d` are asked, where `c` counts the right
      answers before the first wrong or missing one (all of `d` when there is none), and the
      session ends as `Ending` says with `c` points more. */
  lemma ExpectClosedForm(store: Store, d: seq<int>, score: nat, answers: seq<string>)
    requires d != []
    ensures var x := Expect(store, d, score, answers);
      var c := Leading(store, d, answers);
      && x.asked == d[..if c < |d| then c + 1 else c]
      && x.outcome == Ending(c, |d|, |answers|, score)
  {
    ExpectAsked(store, d, score, answers);
    ExpectOutcome(store, d, score, answers);
  }

  lemma {:induction false} ExpectAsked(store: Store, d: seq<int>, score: nat, answers: seq<string>)
    requires d != []
    ensures var c := Leading(store, d, answers);
      Expect(store, d, score, answers).asked == d[..if c < |d| then c + 1 else c]
    decreases |d|
  {
    if answers != [] && RightFor(store, d[0], answers[0]) && |d| > 1 {
      ExpectAsked(store, d[1..], score + 1, answers[1..]);
      var c' := Leading(store, d[1..], answers[1..]);
      assert Leading(store, d, answers) == c' + 1;
      PrefixCons(d[0], d[1..], if c' < |d| - 1 then c' + 1 else c');
      assert [d[0]] + d[1..] == d;
    }
  }

  lemma {:induction false} ExpectOutcome(store: Store, d: seq<int>, score: nat, answers: seq<string>)
    requires d != []
    ensures Expect(store, d, score, answers).outcome == Ending(Leading(store, d, answers), |d|, |answers|, score)
    decreases |d|
  {
    if answers != [] && RightFor(store, d[0], answers[0]) && |d| > 1 {
      ExpectOutcome(store, d[1..], score + 1, answers[1..]);
      var c' := Leading(store, d[1..], answers[1..]);
      assert Leading(store, d, answers) == c' + 1;
      EndingShift(c', |d| - 1, |answers| - 1, score);
    }
  }

  lemma EndingShift(c: nat, n: nat, m: nat, score: nat)
    ensures Ending(c + 1, n + 1, m + 1, score) == Ending(c, n, m, score + 1)
  {
  }

  lemma PrefixCons(x: int, e: seq<int>, n: nat)
    requires n <= |e|
    ensures ([x] + e)[..n + 1] == [x] + e[..n]
  {
  }

  /** What is left after taking position `k` out of known, distinct ids is again known and
      distinct. */
  lemma RestOfDraw(store: Store, pending: seq<int>, k: nat)
    requires Distinct(pending) && Known(store, pending) && k < |pending|
    ensures var rest := pending[..k] + pending[k + 1..];
      Distinct(rest) && Known(store, rest)
  {
    RemoveAt(pending, k);
    var rest := pending[..k] + pending[k + 1..];
    forall i | 0 <= i < |rest|
      ensures Lookup(store, rest[i]).Some?
    {
      assert rest[i] == pending[if i < k then i else i + 1];
    }
  }

  // ---------------------------------------------------------------------------------------
  // What every session reports, whatever the draws

  /** The running scores go up by one from `score`, and an outcome with a score ends at `score`
      plus the right answers. */
  predicate Counted(s: Run, score: nat)
  {
    && (forall i :: 0 <= i < |Scores(s.trace)| ==> Scores(s.trace)[i] == score + i + 1)
    && (!s.outcome.Aborted? ==> s.outcome.score == score + |Scores(s.trace)|)
  }

  /** The final score is reported exactly when the game is over. */
  predicate ReportsFinal(s: Run)
  {
    Reports(s.trace) == (if Finished(s.outcome) then [s.outcome.score] else [])
  }

  /** The prompt is offered again once, last, when the game is over and never otherwise;
      "nothing more to ask" is said only on a win. */
  predicate PromptsOnce(s: Run)
  {
    && multiset(s.trace)[Prompt] == (if Finished(s.outcome) then 1 else 0)
    && multiset(s.trace)[NothingMore] == (if s.outcome.Won? then 1 else 0)
    && (Finished(s.outcome) ==> |s.trace| > 0 && s.trace[|s.trace| - 1] == Prompt)
  }

  predicate Reported(s: Run, score: nat)
  {
    Counted(s, score) && ReportsFinal(s) && PromptsOnce(s)
  }

  lemma {:induction false} BucleReports(store: Store, pending: seq<int>, score: nat, draws: seq<nat>, answers: seq<string>)
    ensures Reported(Bucle(store, pending, score, draws, answers), score)
    decreases |pending|, 2
  {
    var picked := Aleatorio(pending, Head(draws));
    var v := ValidateId(AsArgument(picked.id));
    if v.Success? && Lookup(store, v.value).Some? {
      var q := Lookup(store, v.value).value;
      assert Bucle(store, pending, score, draws, answers) == Round(store, q, picked.rest, score, Tail(draws), answers);
      RoundReports(store, q, picked.rest, score, Tail(draws), answers);
    }
  }

  lemma {:induction false} RoundReports(store: Store, q: Quiz, rest: seq<int>, score: nat, draws: seq<nat>, answers: seq<string>)
    ensures Reported(Round(store, q, rest, score, draws, answers), score)
    decreases |rest| + 1, 1
  {
    if answers == [] {
      ReportedOpen(q, score);
    } else if !Right(q, answers[0]) {
      ReportedWrong(q, score);
    } else if rest == [] {
      ReportedLast(q, score);
    } else {
      BucleReports(store, rest, score + 1, draws, answers[1..]);
      var next := Bucle(store, rest, score + 1, draws, answers[1..]);
      RightRound(store, q, rest, score, draws, answers);
      CountedAfterRight(q, score, next);
      ReportsAfterRight(q, score, next);
      PromptsAfterRight(q, score, next);
    }
  }

  lemma ReportedOpen(q: Quiz, score: nat)
    ensures Reported(Run([Ask(q.id, q.question + "? ")], Waiting(score)), score)
  {
    TraceOfOpenRound(q);
  }

  lemma ReportedWrong(q: Quiz, score: nat)
    ensures Reported(Run([Ask(q.id, q.question + "? "), Incorrect, GameOver(score), Prompt], Lost(score)), score)
  {
    TraceOfWrongRound(q, score);
  }

  lemma ReportedLast(q: Quiz, score: nat)
    ensures Reported(Run([Ask(q.id, q.question + "? "), Correct(score + 1), NothingMore, GameOver(score + 1), Prompt],
                             Won(score + 1)), score)
  {
    TraceOfLastRound(q, score + 1);
  }

  lemma CountedAfterRight(q: Quiz, score: nat, next: Run)
    requires Counted(next, score + 1)
    ensures Counted(Run([Ask(q.id, q.question + "? "), Correct(score + 1)] + next.trace, next.outcome), score)
  {
    var t := [Ask(q.id, q.question + "? "), Correct(score + 1)] + next.trace;
    TraceOfRightRound(q, score, next.trace);
    forall i | 0 <= i < |Scores(t)|
      ensures Scores(t)[i] == score + i + 1
    {
      if i > 0 {
        assert Scores(t)[i] == Scores(next.trace)[i - 1];
      }
    }
  }

  lemma ReportsAfterRight(q: Quiz, score: nat, next: Run)
    requires ReportsFinal(next)
    ensures ReportsFinal(Run([Ask(q.id, q.question + "? "), Correct(score + 1)] + next.trace, next.outcome))
  {
    TraceOfRightRound(q, score, next.trace);
  }

  lemma PromptsAfterRight(q: Quiz, score: nat, next: Run)
    requires PromptsOnce(next)
    ensures PromptsOnce(Run([Ask(q.id, q.question + "? "), Correct(score + 1)] + next.trace, next.outcome))
  {
    var t := [Ask(q.id, q.question + "? "), Correct(score + 1)] + next.trace;
    if Finished(next.outcome) {
      assert t[|t| - 1] == next.trace[|next.trace| - 1];
    }
  }
}
