/** The guess evaluator of a terminal Wordle clone: the feedback colours,
    the board cell that carries a letter and its colour, and `CheckWord`,
    which scores a guess against the solution in two passes over a buffer
    of five cells. */
module GameLogic {

  /** Feedback colour of one cell. */
  datatype Status = Yellow | Green | None

  /** One cell of the result: a character and its colour. */
  datatype Element = Element(c: char, status: Status)

  /** Length of the result buffer `check_word` allocates. */
  const WordLength: nat := 5

  /** The cell every buffer position starts as: the placeholder '1', uncoloured. */
  const Default: Element := Element('1', None)

  /** The inputs on which `check_word` does not panic: every guess index must
      be a valid buffer index, and the solution must have a character at
      every index of the guess. */
  predicate CanCheck(word: string, solution: string) {
    |word| <= WordLength && |word| <= |solution|
  }

  /** The buffer after the first pass: a position holding the same letter
      in guess and solution is GREEN, every other one keeps the default. */
  function ExactPass(word: string, solution: string): (b: seq<Element>)
    requires CanCheck(word, solution)
    ensures |b| == WordLength
  {
    seq(WordLength, i requires 0 <= i < WordLength =>
      if i < |word| && word[i] == solution[i] then Element(word[i], Green) else Default)
  }

  /** The buffer after the second pass over `b`: every guess position that
      is not GREEN gets its letter, YELLOW when the solution contains the
      letter anywhere and NONE otherwise; GREEN cells and the positions past
      the guess are left alone. */
  function PresentPass(word: string, solution: string, b: seq<Element>): (r: seq<Element>)
    requires CanCheck(word, solution) && |b| == WordLength
    ensures |r| == WordLength
  {
    seq(WordLength, i requires 0 <= i < WordLength =>
      if i < |word| && b[i].status != Green
      then Element(word[i], if word[i] in solution then Yellow else None)
      else b[i])
  }

  /** What `check_word` returns: the second pass run on the result of the first. */
  function Evaluate(word: string, solution: string): (r: seq<Element>)
    requires CanCheck(word, solution)
    ensures |r| == WordLength
  {
    PresentPass(word, solution, ExactPass(word, solution))
  }

  /** The per-position meaning of a result: for every guess position the
      cell holds the guessed letter; it is GREEN exactly on an exact match,
      otherwise YELLOW exactly when the solution contains the letter and
      NONE exactly when it does not; the positions past the guess hold the
      default cell. */
  ghost predicate Scores(word: string, solution: string, r: seq<Element>)
    requires CanCheck(word, solution)
  {
    && |r| == WordLength
    && (forall i :: 0 <= i < |word| ==> r[i].c == word[i])
    && (forall i :: 0 <= i < |word| ==> (r[i].status == Green <==> word[i] == solution[i]))
    && (forall i :: 0 <= i < |word| && word[i] != solution[i] ==>
          (r[i].status == Yellow <==> word[i] in solution) &&
          (r[i].status == None <==> word[i] !in solution))
    && (forall i :: |word| <= i < WordLength ==> r[i] == Default)
  }

  /** Scores a guess against the solution: a buffer of five default cells,
      a first loop that marks exact matches GREEN, and a second loop that
      skips the GREEN positions and colours every other guess position
      YELLOW or NONE by whether the solution contains its letter. */
  method CheckWord(word: string, solution: string) returns (r: seq<Element>)
    requires CanCheck(word, solution)
    ensures r == Evaluate(word, solution)
    ensures Scores(word, solution, r)
  {
    var returnWord := new Element[WordLength](_ => Default);
    for i := 0 to |word|
      invariant forall k :: 0 <= k < WordLength ==>
        returnWord[k] == if k < i && word[k] == solution[k] then Element(word[k], Green) else Default
    {
      if word[i] == solution[i] {
        returnWord[i] := Element(word[i], Green);
      }
    }
    assert returnWord[..] == ExactPass(word, solution);
    ghost var exact := returnWord[..];

    for i := 0 to |word|
      invariant forall k :: 0 <= k < WordLength ==>
        returnWord[k] == if k < i then PresentPass(word, solution, exact)[k] else exact[k]
    {
      if returnWord[i].status == Green {
        continue;
      }
      returnWord[i] := if word[i] in solution
        then Element(word[i], Yellow)
        else Element(word[i], None);
    }
    r := returnWord[..];
    assert r == PresentPass(word, solution, exact);
  }
}
