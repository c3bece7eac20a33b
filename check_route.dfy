/**
 * The answer-check endpoint (`POST /api/check`, app/api/check/route.ts).
 * The JSON body's `id` and `answer` are dynamic values; only a number and
 * a string reach the validator. The response carries a status and the
 * `correct` flag and nothing else: the catalog size stays on the server.
 */
module CheckRoute {
  import Js
  import Validate

  datatype CheckResponse = CheckResponse(status: int, correct: bool)

  function Post(catalog: seq<Validate.Puzzle>, id: Js.Value, answer: Js.Value): (r: CheckResponse)
    ensures !(id.Number? && answer.Str?) ==> r == CheckResponse(400, false)
    ensures id.Number? && answer.Str? ==>
      r.status == 200 && r.correct == Validate.ValidateAnswer(catalog, id.n, answer.s).correct
    ensures r.correct ==> r.status == 200 && id.Number? && Validate.Known(catalog, id.n)
  {
    if !id.Number? || !answer.Str? then CheckResponse(400, false)
    else
      var result := Validate.ValidateAnswer(catalog, id.n, answer.s);
      CheckResponse(200, result.correct)
  }

  /** A wrong answer to a known puzzle is an ordinary reply, not an error. */
  lemma WrongAnswerIsOk(catalog: seq<Validate.Puzzle>, id: int, answer: string)
    requires Validate.Known(catalog, id) && id != Validate.CaesarPuzzle && id != Validate.PiPuzzle
    requires forall k | Validate.IsFirst(catalog, id, k) ::
      Validate.Normalized(answer) != Validate.Normalized(catalog[k].answer)
    ensures Post(catalog, Js.Number(id), Js.Str(answer)) == CheckResponse(200, false)
  {
    var k :| 0 <= k < |catalog| && catalog[k].id == id;
    var f := Validate.FindPuzzle(catalog, id);
    assert Validate.IsFirst(catalog, id, f.value);
  }

  /** The stored answer of a puzzle, sent with other letter case and
      surrounded by whitespace, is accepted. */
  lemma StoredAnswerAccepted(catalog: seq<Validate.Puzzle>, k: int, b: string, w1: string, w2: string)
    requires 0 <= k < |catalog| && Validate.IsFirst(catalog, catalog[k].id, k)
    requires catalog[k].id != Validate.CaesarPuzzle && catalog[k].id != Validate.PiPuzzle
    requires Js.SameUpToCase(catalog[k].answer, b) && Js.AllSpace(w1) && Js.AllSpace(w2)
    ensures Post(catalog, Js.Number(catalog[k].id), Js.Str(w1 + b + w2)) == CheckResponse(200, true)
  {
    Validate.ValidateIgnoresPaddingAndCase(catalog, catalog[k].id, catalog[k].answer, w1, b, w2);
  }

  /** An answer sent as a number is refused whatever it is. */
  lemma NumberAnswerRefused(catalog: seq<Validate.Puzzle>, id: Js.Value, answer: int)
    ensures Post(catalog, id, Js.Number(answer)).status == 400
  {
  }
}
