/**
 * The flashcard quiz backend: a constant table of vocabulary words, each
 * shown with three candidate images of which one is correct, and the two
 * read-only endpoints over it, one serving a random word and one checking
 * a submitted choice against the stored correct index.
 */
module Quiz {
  import opened Wrappers

  /** One vocabulary record. `correctIndex` is the position in `images`
      of the picture that matches `word`. */
  datatype Word = Word(
    id: int,
    word: string,
    audioUrl: string,
    images: seq<string>,
    correctIndex: int)

  /** What the answer-check endpoint returns: the verdict together with the
      stored correct index, or an error when no record has the given id. */
  datatype CheckResult =
    | Answer(isCorrect: bool, correctIndex: int)
    | NotFound(error: string)

  const NotFoundMessage: string := "Word not found"

  const CoffeeSvg: string := "/assets/images/coffee.svg"
  const BananaJpg: string :=
    "https://upload.wikimedia.org/wikipedia/commons/thumb/8/8a/Banana-Single.jpg/320px-Banana-Single.jpg"
  const AppleJpg: string :=
    "https://upload.wikimedia.org/wikipedia/commons/thumb/1/15/Red_Apple.jpg/265px-Red_Apple.jpg"
  const OrangeJpg: string :=
    "https://upload.wikimedia.org/wikipedia/commons/thumb/7/7b/Orange-Whole-%26-Split.jpg/320px-Orange-Whole-%26-Split.jpg"

  /** The word table served by the backend. Nothing updates it. */
  const Words: seq<Word> := [
    Word(1, "coffee", "/assets/audio/coffee.mp3",
         [CoffeeSvg, CoffeeSvg, CoffeeSvg], 0),
    Word(2, "banana", "https://upload.wikimedia.org/wikipedia/commons/3/3c/En-uk-banana.ogg",
         [BananaJpg, AppleJpg, OrangeJpg], 0),
    Word(3, "orange", "https://upload.wikimedia.org/wikipedia/commons/3/3c/En-uk-orange.ogg",
         [OrangeJpg, AppleJpg, BananaJpg], 0)
  ]

  /** A record is well formed when it offers exactly three images and its
      correct index points at one of them. */
  predicate WellFormedWord(w: Word) {
    |w.images| == 3 && 0 <= w.correctIndex < |w.images|
  }

  predicate WellFormed(ws: seq<Word>) {
    forall w :: w in ws ==> WellFormedWord(w)
  }

  /** No two records of the table share an id. */
  predicate DistinctIds(ws: seq<Word>) {
    forall i, j :: 0 <= i < j < |ws| ==> ws[i].id != ws[j].id
  }

  /** `i` is the position of the first record of `ws` whose id is `id`. */
  ghost predicate IsFirstMatch(ws: seq<Word>, id: int, i: int) {
    0 <= i < |ws| && ws[i].id == id && forall j :: 0 <= j < i ==> ws[j].id != id
  }

  /** The verdict carried by a result: only an answer can be correct. */
  predicate IsCorrect(r: CheckResult) {
    r.Answer? && r.isCorrect
  }

  /** The lookup by id that scans the table in order and stops at the first
      record whose id matches, or finds nothing. */
  function FindWord(ws: seq<Word>, id: int): (r: Option<Word>)
    ensures r.None? <==> forall i :: 0 <= i < |ws| ==> ws[i].id != id
    ensures r.Some? ==> exists i :: IsFirstMatch(ws, id, i) && r.value == ws[i]
    ensures forall i :: IsFirstMatch(ws, id, i) ==> r == Some(ws[i])
  {
    if |ws| == 0 then None
    else if ws[0].id == id then Some(ws[0])
    else
      var r := FindWord(ws[1..], id);
      assert forall i :: IsFirstMatch(ws[1..], id, i) ==> IsFirstMatch(ws, id, i + 1);
      assert forall i :: IsFirstMatch(ws, id, i) ==> IsFirstMatch(ws[1..], id, i - 1);
      r
  }

  /** Checks `choiceIndex` against the stored correct index of the record
      named by `wordId`, in any table `ws`. */
  function CheckAnswerIn(ws: seq<Word>, wordId: int, choiceIndex: int): (r: CheckResult)
    ensures r.NotFound? <==> forall i :: 0 <= i < |ws| ==> ws[i].id != wordId
    ensures r.NotFound? ==> r.error == NotFoundMessage
    ensures r.Answer? ==>
      exists i :: IsFirstMatch(ws, wordId, i)
        && r == Answer(choiceIndex == ws[i].correctIndex, ws[i].correctIndex)
    ensures forall i :: IsFirstMatch(ws, wordId, i) ==>
      r == Answer(choiceIndex == ws[i].correctIndex, ws[i].correctIndex)
  {
    match FindWord(ws, wordId)
    case None => NotFound(NotFoundMessage)
    case Some(w) => Answer(choiceIndex == w.correctIndex, w.correctIndex)
  }

  /** The answer-check endpoint over the word table. */
  function CheckAnswer(wordId: int, choiceIndex: int): (r: CheckResult)
    ensures r.NotFound? <==> wordId !in {1, 2, 3}
    ensures r.NotFound? ==> r == NotFound(NotFoundMessage)
    ensures r.Answer? ==> r == Answer(choiceIndex == 0, 0)
  {
    assert |Words| == 3 && Words[0].id == 1 && Words[1].id == 2 && Words[2].id == 3;
    CheckAnswerIn(Words, wordId, choiceIndex)
  }

  /** The random-word endpoint: some record of the table, chosen by the
      caller's source of randomness. */
  method GetRandomWord() returns (w: Word)
    ensures w in Words
    ensures WellFormedWord(w)
    ensures CheckAnswer(w.id, w.correctIndex) == Answer(true, w.correctIndex)
  {
    TableWellFormed();
    var i :| 0 <= i < |Words|;
    w := Words[i];
    CorrectChoiceAccepted(Words, i);
  }

  /** The table is well formed and its ids are distinct. */
  lemma TableWellFormed()
    ensures |Words| == 3
    ensures WellFormed(Words)
    ensures DistinctIds(Words)
  {
  }

  /** With distinct ids, looking up a record's own id finds that record. */
  lemma {:induction false} FindWordDistinct(ws: seq<Word>, i: int)
    requires DistinctIds(ws)
    requires 0 <= i < |ws|
    ensures FindWord(ws, ws[i].id) == Some(ws[i])
  {
    assert IsFirstMatch(ws, ws[i].id, i);
  }

  /** With distinct ids, a record's check answers whether the choice equals
      its stored correct index, and always reports that index back. */
  lemma {:induction false} CorrectChoiceAccepted(ws: seq<Word>, i: int)
    requires DistinctIds(ws)
    requires 0 <= i < |ws|
    ensures forall c ::
      CheckAnswerIn(ws, ws[i].id, c) == Answer(c == ws[i].correctIndex, ws[i].correctIndex)
  {
    FindWordDistinct(ws, i);
  }

  /** The reported correct index does not depend on the submitted choice,
      and neither does whether the id was found. */
  lemma {:induction false} ResultIgnoresChoice(ws: seq<Word>, wordId: int, c1: int, c2: int)
    ensures CheckAnswerIn(ws, wordId, c1).NotFound? == CheckAnswerIn(ws, wordId, c2).NotFound?
    ensures CheckAnswerIn(ws, wordId, c1).Answer? ==>
      CheckAnswerIn(ws, wordId, c1).correctIndex == CheckAnswerIn(ws, wordId, c2).correctIndex
  {
  }

  /** Over a well-formed table a choice outside the three image positions
      is never correct, although the check does no range test. */
  lemma {:induction false} OutOfRangeChoiceIsWrong(ws: seq<Word>, wordId: int, choiceIndex: int)
    requires WellFormed(ws)
    requires choiceIndex < 0 || choiceIndex >= 3
    ensures !IsCorrect(CheckAnswerIn(ws, wordId, choiceIndex))
  {
    var r := CheckAnswerIn(ws, wordId, choiceIndex);
    if r.Answer? {
      var i :| IsFirstMatch(ws, wordId, i)
        && r == Answer(choiceIndex == ws[i].correctIndex, ws[i].correctIndex);
      assert WellFormedWord(ws[i]);
    }
  }

  /** Correctness is decided by position, not by picture: the coffee record
      shows the same image three times and only position 0 is accepted. */
  lemma CorrectnessByIndexNotImage()
    ensures Words[0].id == 1
    ensures Words[0].images[0] == Words[0].images[1] == Words[0].images[2]
    ensures CheckAnswer(1, 0) == Answer(true, 0)
    ensures CheckAnswer(1, 1) == Answer(false, 0)
    ensures CheckAnswer(1, 2) == Answer(false, 0)
  {
  }
}
