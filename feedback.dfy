/** What a result of `CheckWord` tells about the guess and the solution:
    its per-position meaning, which solutions it leaves possible, when it is
    all GREEN, and how many cells of each kind it holds. */
module Feedback {
  import opened GameLogic

  /** The reference function meets the per-position meaning, and nothing
      else does: two results that both meet it are equal. */
  lemma EvaluateIsTheScore(word: string, solution: string, r: seq<Element>)
    requires CanCheck(word, solution)
    ensures Scores(word, solution, Evaluate(word, solution))
    ensures Scores(word, solution, r) <==> r == Evaluate(word, solution)
  {
  }

  /** The second pass never overwrites a cell the first pass made GREEN,
      and it touches no position past the guess. */
  lemma GreenCellsSurvive(word: string, solution: string, b: seq<Element>, i: nat)
    requires CanCheck(word, solution) && |b| == WordLength && i < WordLength
    requires b[i].status == Green || |word| <= i
    ensures PresentPass(word, solution, b)[i] == b[i]
  {
  }

  /** Every cell is GREEN exactly when the guess fills the whole buffer and
      equals the first five letters of the solution. */
  lemma {:induction false} AllGreenIffSolved(word: string, solution: string)
    requires CanCheck(word, solution)
    ensures (forall i :: 0 <= i < WordLength ==> Evaluate(word, solution)[i].status == Green)
        <==> |word| == WordLength && word == solution[..WordLength]
  {
    var r := Evaluate(word, solution);
    if forall i :: 0 <= i < WordLength ==> r[i].status == Green {
      assert |word| < WordLength ==> r[|word|] == Default;
      forall i | 0 <= i < WordLength
        ensures word[i] == solution[..WordLength][i]
      {
        assert r[i].status == Green;
      }
    }
  }

  /** Guessing the solution itself scores all GREEN. */
  lemma SolutionScoresAllGreen(word: string)
    requires |word| == WordLength
    ensures forall i :: 0 <= i < WordLength ==> Evaluate(word, word)[i].status == Green
  {
  }

  /** A candidate holding `actual` at the position of cell `e` explains the
      cell's colour. */
  predicate Explains(e: Element, actual: char, candidate: string) {
    match e.status
    case Green => actual == e.c
    case Yellow => actual != e.c && e.c in candidate
    case None => actual != e.c && e.c !in candidate
  }

  /** A candidate solution agrees with a result for `word` when it would
      explain every coloured guess position: GREEN where it has the guessed
      letter, YELLOW where it lacks it there but contains it elsewhere, NONE
      where it does not contain it at all. */
  predicate ConsistentWith(word: string, r: seq<Element>, candidate: string)
    requires |r| == WordLength && |word| <= WordLength
  {
    && |word| <= |candidate|
    && forall i :: 0 <= i < |word| ==> Explains(r[i], candidate[i], candidate)
  }

  /** A result rules out exactly the candidates that would have scored the
      guess differently: a candidate agrees with the result the solution
      produced if and only if it produces the same result. */
  lemma FeedbackIdentifiesCandidates(word: string, solution: string, candidate: string)
    requires CanCheck(word, solution) && CanCheck(word, candidate)
    ensures ConsistentWith(word, Evaluate(word, solution), candidate)
        <==> Evaluate(word, candidate) == Evaluate(word, solution)
  {
  }

  /** The solution always agrees with the result it produced. */
  lemma SolutionIsConsistent(word: string, solution: string)
    requires CanCheck(word, solution)
    ensures ConsistentWith(word, Evaluate(word, solution), solution)
  {
  }

  /** Number of cells of `r` coloured `st`. */
  function CountStatus(r: seq<Element>, st: Status): (n: nat)
    ensures n <= |r|
  {
    if r == [] then 0
    else CountStatus(r[..|r| - 1], st) + (if r[|r| - 1].status == st then 1 else 0)
  }

  /** Number of positions where the guess and the solution hold the same letter. */
  function CountMatches(word: string, solution: string): (n: nat)
    requires |word| <= |solution|
    ensures n <= |word|
  {
    if word == [] then 0
    else
      var last := |word| - 1;
      CountMatches(word[..last], solution) + (if word[last] == solution[last] then 1 else 0)
  }

  /** Number of cells of `r` that hold `ch` and are coloured (GREEN or YELLOW). */
  function Marks(r: seq<Element>, ch: char): (n: nat)
    ensures n <= |r|
  {
    if r == [] then 0
    else Marks(r[..|r| - 1], ch) + (if r[|r| - 1].c == ch && r[|r| - 1].status != None then 1 else 0)
  }

  function Min(a: nat, b: nat): nat { if a <= b then a else b }

  lemma {:induction false} GreenCountPrefix(word: string, solution: string, n: nat)
    requires CanCheck(word, solution) && n <= WordLength
    ensures CountStatus(Evaluate(word, solution)[..n], Green) == CountMatches(word[..Min(n, |word|)], solution)
  {
    var r := Evaluate(word, solution);
    if n > 0 {
      GreenCountPrefix(word, solution, n - 1);
      assert r[..n][..n - 1] == r[..n - 1];
      if n <= |word| {
        assert word[..n][..n - 1] == word[..n - 1];
      } else {
        assert r[n - 1] == Default;
      }
    }
  }

  /** The number of GREEN cells is the number of exact matches. */
  lemma GreenCountIsMatchCount(word: string, solution: string)
    requires CanCheck(word, solution)
    ensures CountStatus(Evaluate(word, solution), Green) == CountMatches(word, solution)
  {
    GreenCountPrefix(word, solution, WordLength);
    assert Evaluate(word, solution)[..WordLength] == Evaluate(word, solution);
    assert word[..|word|] == word;
  }

  lemma {:induction false} MarksPrefix(word: string, solution: string, ch: char, n: nat)
    requires CanCheck(word, solution) && n <= WordLength
    ensures Marks(Evaluate(word, solution)[..n], ch)
         == if ch in solution then multiset(word[..Min(n, |word|)])[ch] else 0
  {
    var r := Evaluate(word, solution);
    if n > 0 {
      MarksPrefix(word, solution, ch, n - 1);
      assert r[..n][..n - 1] == r[..n - 1];
      if n <= |word| {
        assert word[..n] == word[..n - 1] + [word[n - 1]];
        if word[n - 1] == ch && ch !in solution {
          assert solution[n - 1] in solution;
        }
      } else {
        assert r[n - 1] == Default;
      }
    }
  }

  /** Exact matches consume nothing: every occurrence of a letter in the
      guess is coloured when the solution contains that letter at least
      once, however often the guess repeats it, and none is coloured when
      the solution lacks it. */
  lemma MarksPerLetter(word: string, solution: string, ch: char)
    requires CanCheck(word, solution)
    ensures Marks(Evaluate(word, solution), ch) == if ch in solution then multiset(word)[ch] else 0
  {
    MarksPrefix(word, solution, ch, WordLength);
    assert Evaluate(word, solution)[..WordLength] == Evaluate(word, solution);
    assert word[..|word|] == word;
  }

  /** Guess "AAAAA" against solution "ABCDE": one GREEN, then four YELLOW,
      so five cells are coloured for a letter the solution holds once. */
  lemma RepeatedLetterExample()
    ensures Evaluate("AAAAA", "ABCDE")
         == [Element('A', Green), Element('A', Yellow), Element('A', Yellow),
             Element('A', Yellow), Element('A', Yellow)]
    ensures Marks(Evaluate("AAAAA", "ABCDE"), 'A') == 5 > multiset("ABCDE")['A']
  {
    MarksPerLetter("AAAAA", "ABCDE", 'A');
    assert "AAAAA" == ['A', 'A', 'A', 'A', 'A'];
    assert "ABCDE" == ['A'] + "BCDE";
  }
}
