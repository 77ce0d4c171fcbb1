/**
 * The game state of WordScramble's `ContentView` and the operations that
 * change it: submitting a word, starting a game, and the "Start new Game"
 * toolbar action. The spell checker and the word list file are parameters.
 */
module WordScramble {
  import opened Wrappers
  import opened Text
  import opened Validation

  /** `words.randomElement()`, with the random draw given as `pick`. */
  function RandomElement(words: seq<string>, pick: nat): (r: Option<string>)
    ensures r.None? <==> words == []
    ensures r.Some? ==> r.value in words
    ensures pick < |words| ==> r == Some(words[pick])
  {
    if words == [] then None else Some(words[pick % |words|])
  }

  /** Consuming the next letter of `word` from the working copy keeps the loop invariant of `IsPossible`. */
  lemma ConsumeLetter(word: string, i: nat, root: string, temp: string)
    requires i < |word| && word[i] in temp
    requires multiset(word[..i]) <= multiset(root)
    requires multiset(temp) == multiset(root) - multiset(word[..i])
    ensures multiset(word[..i + 1]) <= multiset(root)
    ensures multiset(temp) - multiset{word[i]} == multiset(root) - multiset(word[..i + 1])
  {
    assert word[..i + 1] == word[..i] + [word[i]];
  }

  /** A letter with no occurrence left in the working copy makes `word` unspellable. */
  lemma ExhaustedLetter(word: string, i: nat, root: string, temp: string)
    requires i < |word| && word[i] !in temp
    requires multiset(word[..i]) <= multiset(root)
    requires multiset(temp) == multiset(root) - multiset(word[..i])
    ensures !Spellable(word, root)
  {
    var letter := word[i];
    assert word[..i + 1] == word[..i] + [letter];
    assert multiset(temp)[letter] == 0;
    assert multiset(word[..i + 1])[letter] == multiset(root)[letter] + 1;
    assert word == word[..i + 1] + word[i + 1..];
    assert multiset(word)[letter] >= multiset(word[..i + 1])[letter];
  }

  class ContentView {
    var usedWords: seq<string>
    var rootWord: string
    var newWord: string

    var errorTitle: string
    var errorMessage: string
    var showingError: bool

    var score: int

    /**
     * The state between two submissions of one game: the accepted words keep
     * the list invariant against the current root word, and the score is ten
     * points for each of their letters.
     */
    ghost predicate Valid()
      reads this
    {
      WordsValid(usedWords, rootWord) && score == 10 * TotalLength(usedWords)
    }

    /** The view as SwiftUI creates it, before `onAppear` starts a game. */
    constructor ()
      ensures usedWords == [] && rootWord == "" && newWord == ""
      ensures errorTitle == "" && errorMessage == "" && !showingError
      ensures score == 0
      ensures Valid()
    {
      usedWords := [];
      rootWord := "";
      newWord := "";
      errorTitle := "";
      errorMessage := "";
      showingError := false;
      score := 0;
    }

    /** The answer has not been accepted before. */
    function IsOriginal(word: string): (r: bool)
      reads this
      ensures r <==> forall i :: 0 <= i < |usedWords| ==> usedWords[i] != word
    {
      !(word in usedWords)
    }

    /**
     * Whether `word` can be spelt from the root word: a working copy of the
     * root loses the first occurrence of each letter of `word` in turn, and
     * the check fails as soon as a letter has no occurrence left.
     */
    method IsPossible(word: string) returns (possible: bool)
      ensures possible <==> Spellable(word, rootWord)
    {
      var tempWord := rootWord;
      for i := 0 to |word|
        invariant multiset(word[..i]) <= multiset(rootWord)
        invariant multiset(tempWord) == multiset(rootWord) - multiset(word[..i])
      {
        var letter := word[i];
        match FirstIndexOf(tempWord, letter)
        case Some(pos) =>
          ConsumeLetter(word, i, rootWord, tempWord);
          tempWord := RemoveAt(tempWord, pos);
        case None =>
          ExhaustedLetter(word, i, rootWord, tempWord);
          return false;
      }
      assert word[..|word|] == word;
      return true;
    }

    /** Records a rejection for the alert. */
    method WordError(title: string, message: string)
      modifies this`errorTitle, this`errorMessage, this`showingError
      ensures errorTitle == title && errorMessage == message && showingError
    {
      errorTitle := title;
      errorMessage := message;
      showingError := true;
    }

    /** Raises the alert for a rejection: the title and message the guard that failed passes to `wordError`. */
    method Reject(kind: Rejection)
      modifies this`errorTitle, this`errorMessage, this`showingError
      ensures errorTitle == Title(kind) && errorMessage == Message(kind, rootWord) && showingError
    {
      WordError(Title(kind), Message(kind, rootWord));
    }

    /** The accepted answer goes to the front of the list and scores ten points per letter; the field is cleared. */
    method Accept(answer: string, scoreMultiplier: nat, ghost isReal: string -> bool)
      requires answer == Normalize(newWord) && scoreMultiplier == |answer|
      requires Verdict(answer, rootWord, usedWords, isReal).None?
      modifies this`usedWords, this`score, this`newWord
      ensures usedWords == [answer] + old(usedWords) && score == old(score) + 10 * |answer| && newWord == ""
      ensures old(Valid()) ==> Valid()
    {
      if Valid() {
        NormalizedIsFixedPoint(newWord);
        AcceptKeepsWordsValid(answer, rootWord, usedWords, isReal);
      }
      usedWords := [answer] + usedWords;
      score := score + 10 * scoreMultiplier;
      newWord := "";
    }

    /**
     * Submitting the text field. The normalised answer runs through the
     * guards in `CheckOrder`; the first one that fails sets the alert and
     * nothing else, and an answer that passes them all goes to the front of
     * the list and earns ten points per letter.
     */
    method AddNewWord(isReal: string -> bool)
      modifies this
      ensures var answer := Normalize(old(newWord));
        Verdict(answer, old(rootWord), old(usedWords), isReal).None? ==>
          && usedWords == [answer] + old(usedWords)
          && score == old(score) + 10 * |answer|
          && newWord == ""
          && errorTitle == old(errorTitle) && errorMessage == old(errorMessage)
          && showingError == old(showingError)
      ensures var verdict := Verdict(Normalize(old(newWord)), old(rootWord), old(usedWords), isReal);
        verdict.Some? ==>
          && usedWords == old(usedWords) && score == old(score) && newWord == old(newWord)
          && errorTitle == Title(verdict.value) && errorMessage == Message(verdict.value, old(rootWord))
          && showingError
      ensures rootWord == old(rootWord)
      ensures score >= old(score)
      ensures old(Valid()) ==> Valid()
    {
      var answer := Normalize(newWord);
      var scoreMultiplier := |answer|;
      VerdictCases(answer, rootWord, usedWords, isReal);

      if !(|answer| > 2) {
        Reject(TooShort);
        return;
      }
      if answer == rootWord {
        Reject(SameAsRoot);
        return;
      }
      var original := IsOriginal(answer);
      if !original {
        Reject(AlreadyUsed);
        return;
      }
      var possible := IsPossible(answer);
      if !possible {
        Reject(NotPossible);
        return;
      }
      if !isReal(answer) {
        Reject(NotReal);
        return;
      }

      Accept(answer, scoreMultiplier, isReal);
    }

    /**
     * `startGame`: the contents of `start.txt` (`None` when the file cannot
     * be found or read, where the source stops with `fatalError`) are cut
     * into lines and one line, chosen by `pick`, becomes the root word.
     * Nothing else changes.
     */
    method StartGame(startWords: Option<string>, pick: nat) returns (loaded: bool)
      modifies this`rootWord
      ensures loaded <==> startWords.Some?
      ensures loaded ==> rootWord in Split(startWords.value, '\n')
      ensures loaded && pick < |Split(startWords.value, '\n')| ==> rootWord == Split(startWords.value, '\n')[pick]
      ensures !loaded ==> rootWord == old(rootWord)
    {
      if startWords.None? {
        return false;
      }
      var allWords := Split(startWords.value, '\n');
      rootWord := RandomElement(allWords, pick).GetOr("silkworm");
      return true;
    }

    /**
     * The "Start new Game" button as written: a new root word and a score of
     * zero, while the words of the previous game stay in the list.
     */
    method StartNewGameAsWritten(startWords: Option<string>, pick: nat) returns (loaded: bool)
      modifies this`rootWord, this`score
      ensures loaded <==> startWords.Some?
      ensures loaded ==> rootWord in Split(startWords.value, '\n') && score == 0
      ensures loaded && pick < |Split(startWords.value, '\n')| ==> rootWord == Split(startWords.value, '\n')[pick]
      ensures !loaded ==> rootWord == old(rootWord) && score == old(score)
      ensures usedWords == old(usedWords)
    {
      loaded := StartGame(startWords, pick);
      if !loaded {
        return;
      }
      score := 0;
    }

    /**
     * The "Start new Game" button as intended: a new root word, an empty
     * list and a score of zero, which starts the next game in a valid state.
     */
    method StartNewGame(startWords: Option<string>, pick: nat) returns (loaded: bool)
      modifies this`rootWord, this`score, this`usedWords
      ensures loaded <==> startWords.Some?
      ensures loaded ==> rootWord in Split(startWords.value, '\n') && usedWords == [] && score == 0
      ensures loaded && pick < |Split(startWords.value, '\n')| ==> rootWord == Split(startWords.value, '\n')[pick]
      ensures !loaded ==> rootWord == old(rootWord) && usedWords == old(usedWords) && score == old(score)
      ensures loaded || old(Valid()) ==> Valid()
    {
      loaded := StartGame(startWords, pick);
      if !loaded {
        return;
      }
      usedWords := [];
      score := 0;
    }
  }
}
