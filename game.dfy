/** The state of the word-game screen and the two operations that change
    it: submitting the typed word and starting a new game. The rendering of
    that state is not modelled. */
module Game {
  import opened Text
  import opened Possible
  import opened Validation

  class ContentView {
    /** Accepted words of the game, most recent first. */
    var usedWords: seq<string>
    var rootWord: string
    /** The text field's contents. */
    var newWord: string
    var errorTitle: string
    var errorMessage: string
    var showError: bool

    constructor ()
      ensures usedWords == [] && rootWord == "" && newWord == ""
      ensures errorTitle == "" && errorMessage == "" && !showError
    {
      usedWords := [];
      rootWord := "";
      newWord := "";
      errorTitle := "";
      errorMessage := "";
      showError := false;
    }

    /** `isOriginal(word:)`: word has not been accepted yet. */
    function IsOriginal(word: string): (r: bool)
      reads this
      ensures r <==> forall i | 0 <= i < |usedWords| :: usedWords[i] != word
    {
      word !in usedWords
    }

    /** `addNewWord()`: normalise the typed text, run the guard checks in
        order and either report the first failure or prepend the answer to
        the accepted words and clear the text field. */
    method AddNewWord(isReal: string -> bool)
      modifies this
      ensures rootWord == old(rootWord) && errorTitle == old(errorTitle)
      ensures var answer := Normalise(old(newWord));
        match Evaluate(old(rootWord), old(usedWords), answer, isReal)
        case Accepted =>
          && usedWords == [answer] + old(usedWords)
          && newWord == ""
          && errorMessage == old(errorMessage) && showError == old(showError)
        case Rejected(reason) =>
          && usedWords == old(usedWords)
          && newWord == old(newWord)
          && errorMessage == Message(reason) && showError
      ensures RoundInvariant(rootWord, old(usedWords)) ==> RoundInvariant(rootWord, usedWords)
    {
      var answer := Normalise(newWord);
      ghost var outcome := Evaluate(rootWord, usedWords, answer, isReal);
      if answer == rootWord {
        assert outcome == Rejected(SameAsRoot);
        errorMessage := Message(SameAsRoot);
        showError := true;
        return;
      }
      if |answer| <= 3 {
        assert outcome == Rejected(TooShort);
        errorMessage := Message(TooShort);
        showError := true;
        return;
      }
      if !IsOriginal(answer) {
        assert outcome == Rejected(NotOriginal);
        errorMessage := Message(NotOriginal);
        showError := true;
        return;
      }
      var possible := IsPossible(answer);
      if !possible {
        // addNewWord sets Message(NotPossible) here, but IsPossible never
        // answers no: the branch cannot be taken.
        assert false;
      }
      if !isReal(answer) {
        assert outcome == Rejected(NotReal);
        errorMessage := Message(NotReal);
        showError := true;
        return;
      }
      assert outcome == Accepted;
      if RoundInvariant(rootWord, usedWords) {
        AcceptKeepsRoundInvariant(rootWord, usedWords, answer, isReal);
      }
      usedWords := [answer] + usedWords;
      newWord := "";
    }

    /** `startGame()` once the word list has been read as `text`: the
        list is split at line feeds and one piece is chosen; `pick` stands
        for the random choice. The split never yields an empty list, so the
        "silkworm" fallback is never taken. Only the root word changes; the
        accepted words of the previous game stay. */
    method StartGame(text: string, pick: nat)
      modifies this
      ensures rootWord in Lines(text) && rootWord == Lines(text)[pick % |Lines(text)|]
      ensures pick < |Lines(text)| ==> rootWord == Lines(text)[pick]
      ensures usedWords == old(usedWords) && newWord == old(newWord)
      ensures errorTitle == old(errorTitle) && errorMessage == old(errorMessage)
      ensures showError == old(showError)
    {
      var dataArray := Lines(text);
      rootWord := match RandomElement(dataArray, pick)
        case Some(word) => word
        case None => "silkworm";
    }
  }

  /** `randomElement()`: nothing for an empty list, otherwise the element the
      random choice `pick` lands on. */
  function RandomElement<T>(xs: seq<T>, pick: nat): (r: Option<T>)
    ensures r.None? <==> xs == []
    ensures r.Some? ==> r.value in xs && r.value == xs[pick % |xs|]
    ensures pick < |xs| ==> r == Some(xs[pick])
  {
    if xs == [] then None else Some(xs[pick % |xs|])
  }

  /** Because startGame keeps the accepted words, the round invariant breaks
      across games: a word accepted against one root word stays accepted
      when a new game picks that same word as its root. */
  method NewRootMayBeUsed(root: string, word: string, isReal: string -> bool)
      returns (before: bool, after: bool)
    requires '\n' !in root && '\n' !in word
    requires |word| > 3 && word != root && isReal(word)
    requires NoUpper(word) && !IsWhitespace(word[0]) && !IsWhitespace(word[|word| - 1])
    ensures before && !after
  {
    var view := new ContentView();
    LinesOfOneLine(root);
    view.StartGame(root, 0);
    view.newWord := word;
    NormalFormFixed(word);
    view.AddNewWord(isReal);
    before := RoundInvariant(view.rootWord, view.usedWords);
    LinesOfOneLine(word);
    view.StartGame(word, 0);
    after := RoundInvariant(view.rootWord, view.usedWords);
  }

  /** A word list ending in a line feed has an empty last piece. When that
      piece is picked, the root word is empty and an empty submission is
      reported as the root word rather than as too short. */
  method EmptyRootFromFinalNewline(text: string, isReal: string -> bool) returns (message: string)
    requires text != [] && text[|text| - 1] == '\n'
    ensures message == Message(SameAsRoot)
  {
    var view := new ContentView();
    LinesAfterFinalNewline(text);
    view.StartGame(text, |Lines(text)| - 1);
    view.newWord := "";
    NormalFormFixed("");
    view.AddNewWord(isReal);
    message := view.errorMessage;
  }
}
