/**
 * The answer validator (lib/validate.ts). The puzzle catalog, which the
 * source loads from `puzzles.json`, is a parameter. A submission is
 * compared after `trim().toLowerCase()`; two puzzles have fixed answers
 * in the code itself: puzzle 3 accepts the Caesar plaintext whatever the
 * catalog says, and puzzle 4 accepts "pi" or the letter pi.
 */
module Validate {
  import opened Wrappers
  import Js

  datatype Puzzle = Puzzle(id: int, title: string, prompt: string, answer: string, hint: Option<string>)

  datatype Validation = Validation(correct: bool, total: nat)

  const CaesarPuzzle: int := 3
  const PiPuzzle: int := 4
  const PiLetter: string := "\U{3C0}"

  /** Index `k` holds the first catalog entry with this id. */
  predicate IsFirst(catalog: seq<Puzzle>, id: int, k: int) {
    0 <= k < |catalog| && catalog[k].id == id
    && forall j | 0 <= j < k :: catalog[j].id != id
  }

  predicate Known(catalog: seq<Puzzle>, id: int) {
    exists k | 0 <= k < |catalog| :: catalog[k].id == id
  }

  /** `puzzles.find((p) => p.id === id)`, as an index. */
  function FindPuzzle(catalog: seq<Puzzle>, id: int): (r: Option<nat>)
    ensures r.Some? ==> IsFirst(catalog, id, r.value)
    ensures r.None? <==> !Known(catalog, id)
  {
    if catalog == [] then None
    else if catalog[0].id == id then Some(0)
    else match FindPuzzle(catalog[1..], id)
      case None => None
      case Some(k) => Some(k + 1)
  }

  /** The `normalized` helper: `value.trim().toLowerCase()`. */
  function Normalized(value: string): (r: string)
    ensures r == [] <==> Js.AllSpace(value)
    ensures r != [] ==> !Js.IsSpace(r[0]) && !Js.IsSpace(r[|r| - 1])
    ensures forall i | 0 <= i < |r| :: !Js.IsUpperLetter(r[i])
  {
    Js.ToLower(Js.Trim(value))
  }

  /** `validateAnswer(id, answer)` over the given catalog. */
  function ValidateAnswer(catalog: seq<Puzzle>, id: int, answer: string): (r: Validation)
    ensures r.total == |catalog|
    ensures !Known(catalog, id) ==> !r.correct
    ensures Known(catalog, id) && id == CaesarPuzzle ==>
      (r.correct <==> Normalized(answer) == "me gusta el fernet")
    ensures Known(catalog, id) && id == PiPuzzle ==>
      (r.correct <==> Normalized(answer) == "pi" || Normalized(answer) == PiLetter)
    ensures forall k | IsFirst(catalog, id, k) && id != CaesarPuzzle && id != PiPuzzle ::
      r.correct <==> Normalized(answer) == Normalized(catalog[k].answer)
  {
    match FindPuzzle(catalog, id)
    case None => Validation(false, |catalog|)
    case Some(k) =>
      if id == CaesarPuzzle then
        Validation(IsCaesarAnswer(answer), |catalog|)
      else if id == PiPuzzle then
        Validation(IsPiAnswer(answer), |catalog|)
      else
        FirstIsUnique(catalog, id, k);
        Validation(Normalized(catalog[k].answer) == Normalized(answer), |catalog|)
  }

  /** The comparison for puzzle 3, against the fixed plaintext. */
  function IsCaesarAnswer(answer: string): (r: bool)
    ensures r <==> Normalized(answer) == "me gusta el fernet"
  {
    NormalizedPhrase("ME GUSTA EL FERNET", "me gusta el fernet");
    Normalized("ME GUSTA EL FERNET") == Normalized(answer)
  }

  /** The comparison for puzzle 4; its third alternative, `normalized('PI')`,
      is the first one again. */
  function IsPiAnswer(answer: string): (r: bool)
    ensures r <==> Normalized(answer) == "pi" || Normalized(answer) == PiLetter
  {
    NormalizedPi("PI", "pi");
    var normalizedAnswer := Normalized(answer);
    normalizedAnswer == "pi" || normalizedAnswer == PiLetter || normalizedAnswer == Normalized("PI")
  }

  lemma FirstIsUnique(catalog: seq<Puzzle>, id: int, k: int)
    requires IsFirst(catalog, id, k)
    ensures forall j | IsFirst(catalog, id, j) :: j == k
  {
  }

  lemma LowerOfPhrase(s: string, t: string)
    requires s == "ME GUSTA EL FERNET" && t == "me gusta el fernet"
    ensures Js.ToLower(s) == t
  {
    assert forall i | 0 <= i < |s| :: Js.LowerChar(s[i]) == t[i];
  }

  lemma NormalizedPhrase(s: string, t: string)
    requires s == "ME GUSTA EL FERNET" && t == "me gusta el fernet"
    ensures Normalized(s) == t
  {
    Js.TrimOfTrimmed(s);
    LowerOfPhrase(s, t);
  }

  lemma NormalizedPi(s: string, t: string)
    requires s == "PI" && t == "pi"
    ensures Normalized(s) == t
  {
    Js.TrimOfTrimmed(s);
    assert forall i | 0 <= i < |s| :: Js.LowerChar(s[i]) == t[i];
  }

  /** The submission is compared up to surrounding whitespace and the
      case of its ASCII letters. */
  lemma ValidateIgnoresPaddingAndCase(catalog: seq<Puzzle>, id: int, a: string, w1: string, b: string, w2: string)
    requires Js.SameUpToCase(a, b) && Js.AllSpace(w1) && Js.AllSpace(w2)
    ensures ValidateAnswer(catalog, id, w1 + b + w2) == ValidateAnswer(catalog, id, a)
  {
    Js.TrimPadding(w1, b, w2);
    Js.TrimLowerUpToCase(a, b);
    assert Normalized(w1 + b + w2) == Normalized(a);
  }

  /** With a repeated id, the first entry decides: a later entry's answer
      is not accepted unless it normalises to the first one's. */
  lemma FirstDuplicateDecides(p: Puzzle, q: Puzzle, rest: seq<Puzzle>)
    requires p.id == q.id && p.id != CaesarPuzzle && p.id != PiPuzzle
    ensures ValidateAnswer([p, q] + rest, p.id, q.answer).correct
      <==> Normalized(q.answer) == Normalized(p.answer)
  {
    assert IsFirst([p, q] + rest, p.id, 0);
  }

  /** The Caesar puzzle's stored answer plays no part. */
  lemma CaesarIgnoresCatalog(catalog: seq<Puzzle>, answer: string)
    requires Known(catalog, CaesarPuzzle)
    ensures ValidateAnswer(catalog, CaesarPuzzle, answer).correct
      <==> Normalized(answer) == Normalized("ME GUSTA EL FERNET")
  {
    NormalizedPhrase("ME GUSTA EL FERNET", "me gusta el fernet");
  }
}
