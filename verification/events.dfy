/**
 What cmds.js shows the user, one event per line or prompt, shared by the `show`, `test` and
 `play` commands.
 */
module Events {
  import opened Ids
  import opened Quizzes

  datatype Event =
    | Shown(quiz: Quiz)                // `showCmd`: `[id]: question => answer`
    | Ask(id: int, question: string)   // the question of quiz `id`, asked with `makeQuestion`
    | Verdict(right: bool)             // `testCmd`: "Su respuesta es correcta." or "... incorrecta."
    | Correct(score: nat)              // `bucle`: "CORRECTO - Lleva <score> aciertos."
    | Incorrect                        // `bucle`: "INCORRECTO."
    | NothingMore                      // "No hay nada más que preguntar."
    | GameOver(score: nat)             // "Fin del juego. Aciertos: <score>" and the big score
    | Failed(error: Error)             // the message of a rejected promise, via `errorlog`
    | Prompt                           // `rl.prompt()`: the command line is offered again
}
