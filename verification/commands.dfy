/**
 The `show <id>` and `test <id>` commands of cmds.js: validate the argument, look the quiz up,
 then either display it or ask its question and judge the reply with `limpia`. Whatever
 happens, the prompt is offered again exactly once at the end.
 */
module Commands {
  import opened Wrappers
  import opened Text
  import opened Normalize
  import opened Ids
  import opened Quizzes
  import opened Events

  /** `validateId(id)` followed by `findById`; a missing row becomes the "No existe" rejection. */
  function Find(store: Store, arg: Option<string>): (r: Result<Quiz, Error>)
    ensures r.Success? <==> arg.Some? && ParseInt(arg.value).Some? && HasId(store, ParseInt(arg.value).value)
    ensures r.Success? ==> r.value in store && Some(r.value.id) == ParseInt(arg.value)
    ensures r.Failure? ==> (r.error == NotFound <==> arg.Some? && ParseInt(arg.value).Some?)
  {
    match ValidateId(arg)
    case Failure(e) => Failure(e)
    case Success(id) =>
      match Lookup(store, id)
      case None => Failure(NotFound)
      case Some(q) => Success(q)
  }

  /** `showCmd`: the quiz the argument names, or the reason there is none, then the prompt. */
  function ShowCmd(store: Store, arg: Option<string>): (out: seq<Event>)
    ensures |out| == 2 && out[1] == Prompt
    ensures out[0].Shown? || out[0].Failed?
    ensures out[0].Shown? <==> Find(store, arg).Success?
    ensures out[0].Shown? ==> out[0].quiz in store && Some(out[0].quiz.id) == ParseInt(arg.value)
  {
    match Find(store, arg)
    case Failure(e) => [Failed(e), Prompt]
    case Success(q) => [Shown(q), Prompt]
  }

  /** `testCmd`: ask the question of the quiz the argument names, compare the trimmed reply with
      the stored answer under `limpia`, then offer the prompt. The question ends in a full-width
      question mark, unlike the one `play` asks. */
  function TestCmd(store: Store, arg: Option<string>, answer: string): (out: seq<Event>)
    ensures |out| == 2 || |out| == 3
    ensures out[|out| - 1] == Prompt && Prompt !in out[..|out| - 1]
    ensures |out| == 3 <==> Find(store, arg).Success?
    ensures |out| == 3 ==> out[0] == Ask(Find(store, arg).value.id, Find(store, arg).value.question + "\U{FF1F} ")
    ensures |out| == 3 ==> out[1] == Verdict(Matches(answer, Find(store, arg).value.answer))
    ensures |out| == 2 ==> out[0] == Failed(Find(store, arg).error)
  {
    match Find(store, arg)
    case Failure(e) => [Failed(e), Prompt]
    case Success(q) => [Ask(q.id, q.question + "\U{FF1F} "), Verdict(Judge(answer, q.answer)), Prompt]
  }

  // ---------------------------------------------------------------------------------------
  // Properties

  /** The rendered id of any stored quiz finds exactly that quiz. */
  lemma FindRendered(store: Store, q: Quiz)
    requires UniqueIds(store) && q in store
    ensures Find(store, Some(Render(q.id))) == Success(q)
  {
    ValidateRendered(q.id);
    LookupFindsRow(store, q);
  }

  /** `show` with the id of a stored quiz displays that quiz. */
  lemma ShowStoredQuiz(store: Store, q: Quiz)
    requires UniqueIds(store) && q in store
    ensures ShowCmd(store, Some(Render(q.id))) == [Shown(q), Prompt]
  {
    FindRendered(store, q);
  }

  /** `test` with the id of a stored quiz asks its question and accepts a reply exactly when the
      reply and the stored answer agree under `limpia`. */
  lemma TestStoredQuiz(store: Store, q: Quiz, answer: string)
    requires UniqueIds(store) && q in store
    ensures TestCmd(store, Some(Render(q.id)), answer)
         == [Ask(q.id, q.question + "\U{FF1F} "), Verdict(Limpia(answer) == Limpia(q.answer)), Prompt]
  {
    FindRendered(store, q);
    MatchesIgnoresTrim(answer, q.answer);
  }

  /** The stored answer with white space around it is accepted. */
  lemma TestAcceptsPaddedAnswer(store: Store, q: Quiz, lead: string, trail: string)
    requires UniqueIds(store) && q in store && AllSpace(lead) && AllSpace(trail)
    ensures TestCmd(store, Some(Render(q.id)), lead + q.answer + trail)[1] == Verdict(true)
  {
    TestStoredQuiz(store, q, lead + q.answer + trail);
    LimpiaIgnoresPadding(lead, q.answer, trail);
  }

  /** The stored answer in lower case is accepted. */
  lemma TestAcceptsLowerCaseAnswer(store: Store, q: Quiz)
    requires UniqueIds(store) && q in store
    ensures TestCmd(store, Some(Render(q.id)), ToLower(q.answer))[1] == Verdict(true)
  {
    TestStoredQuiz(store, q, ToLower(q.answer));
    LimpiaIgnoresCase(q.answer);
  }

  /** The stored answer with its accents dropped is accepted. */
  lemma TestAcceptsUnaccentedAnswer(store: Store, q: Quiz)
    requires UniqueIds(store) && q in store
    ensures TestCmd(store, Some(Render(q.id)), Deaccent(q.answer))[1] == Verdict(true)
  {
    TestStoredQuiz(store, q, Deaccent(q.answer));
    LimpiaIgnoresAccents(q.answer);
  }

  /** Without an argument, or with one `parseInt` cannot read, neither command looks anything up. */
  lemma CommandsRejectBadArgument(store: Store, arg: Option<string>, answer: string)
    requires arg.None? || ParseInt(arg.value).None?
    ensures var e := if arg.None? then MissingArgument else NotANumber;
      && ShowCmd(store, arg) == [Failed(e), Prompt]
      && TestCmd(store, arg, answer) == [Failed(e), Prompt]
  {
  }

  /** An id `parseInt` reads but no quiz carries is reported as not found by both commands. */
  lemma CommandsRejectUnknownId(store: Store, arg: string, answer: string)
    requires ParseInt(arg).Some? && !HasId(store, ParseInt(arg).value)
    ensures ShowCmd(store, Some(arg)) == [Failed(NotFound), Prompt]
    ensures TestCmd(store, Some(arg), answer) == [Failed(NotFound), Prompt]
  {
  }
}
