/**
 * Examples on the root word "silkworm" (spelling, normalisation, the
 * verdict of single answers), and sessions of several
 * submissions on any view: a repeated entry, and what each version of the
 * "Start new Game" button leaves behind.
 */
module Scenarios {
  import opened Wrappers
  import opened Text
  import opened Validation
  import opened WordScramble

  lemma SilkSpellable()
    ensures Spellable("silk", "silkworm")
  {
  }

  lemma WormSpellable()
    ensures Spellable("worm", "silkworm")
  {
    assert multiset("worm") == multiset{'w', 'o', 'r', 'm'};
  }

  /** "worms" can be spelt from "silkworm" too: the root has an 's'. */
  lemma WormsSpellable()
    ensures Spellable("worms", "silkworm")
  {
  }

  /** "silkk" cannot be spelt from "silkworm", which has one 'k'. */
  lemma SilkkNotSpellable()
    ensures !Spellable("silkk", "silkworm")
  {
  }

  lemma LowercasedSilk()
    ensures Lowercased("SILK") == "silk"
  {
    var l := Lowercased("SILK");
    assert l[0] == 's' && l[1] == 'i' && l[2] == 'l' && l[3] == 'k';
  }

  lemma NormalizeWorm()
    ensures Normalize("worm") == "worm"
  {
    assert IsNormalized("worm");
    NormalizedIsFixedPoint("worm");
  }

  lemma NormalizeLowerSilk()
    ensures Normalize("silk") == "silk"
  {
    assert IsNormalized("silk");
    NormalizedIsFixedPoint("silk");
  }

  lemma NormalizeUpperSilk()
    ensures Normalize("SILK") == "silk"
  {
    LowercasedSilk();
    assert IsNormalized("silk");
  }

  /** Upper case and surrounding whitespace are normalised away. */
  lemma NormalizeSilk()
    ensures Normalize([' '] + "SILK" + [' ']) == "silk"
  {
    NormalizeUpperSilk();
    NormalizeIgnoresPadding("SILK", ' ');
  }

  lemma WormAccepted(isReal: string -> bool)
    requires isReal("worm")
    ensures Verdict("worm", "silkworm", [], isReal) == None
  {
    WormSpellable();
    VerdictCases("worm", "silkworm", [], isReal);
  }

  lemma SilkAccepted(isReal: string -> bool, used: seq<string>)
    requires isReal("silk")
    requires used == [] || used == ["worm"]
    ensures Verdict("silk", "silkworm", used, isReal) == None
  {
    SilkSpellable();
    VerdictCases("silk", "silkworm", used, isReal);
  }

  lemma SilkAlreadyUsed(isReal: string -> bool, used: seq<string>)
    requires |used| > 0 && used[0] == "silk"
    ensures Verdict("silk", "silkworm", used, isReal) == Some(AlreadyUsed)
  {
    VerdictCases("silk", "silkworm", used, isReal);
  }

  /** After the button as written, a stale word need not be spellable from the new root word. */
  lemma StaleWordBreaksInvariant()
    ensures !WordsValid(["silk"], "abstract")
  {
    assert multiset("abstract")['i'] == 0;
    assert multiset(["silk"][0])['i'] == 1;
  }

  /** Types `text` into the field and submits it, when the answer it normalises to is accepted. */
  method SubmitAccepted(view: ContentView, text: string, isReal: string -> bool)
    requires Verdict(Normalize(text), view.rootWord, view.usedWords, isReal) == None
    modifies view
    ensures view.rootWord == old(view.rootWord)
    ensures view.usedWords == [Normalize(text)] + old(view.usedWords)
    ensures view.score == old(view.score) + 10 * |Normalize(text)|
    ensures old(view.Valid()) ==> view.Valid()
  {
    view.newWord := text;
    view.AddNewWord(isReal);
  }

  /** Types `text` into the field and submits it, when its answer is turned down as already used. */
  method SubmitAlreadyUsed(view: ContentView, text: string, isReal: string -> bool)
    requires Verdict(Normalize(text), view.rootWord, view.usedWords, isReal) == Some(AlreadyUsed)
    modifies view
    ensures view.rootWord == old(view.rootWord)
    ensures view.usedWords == old(view.usedWords) && view.score == old(view.score)
    ensures view.errorTitle == Title(AlreadyUsed) && view.showingError
  {
    view.newWord := text;
    view.AddNewWord(isReal);
  }

  /**
   * Submitting an accepted entry a second time is turned down as already
   * used, and only the first submission scores.
   */
  method SubmitTwice(view: ContentView, text: string, isReal: string -> bool)
    requires Verdict(Normalize(text), view.rootWord, view.usedWords, isReal) == None
    modifies view
    ensures view.usedWords == [Normalize(text)] + old(view.usedWords)
    ensures view.score == old(view.score) + 10 * |Normalize(text)|
    ensures view.errorTitle == Title(AlreadyUsed) && view.showingError
  {
    var answer := Normalize(text);
    VerdictCases(answer, view.rootWord, view.usedWords, isReal);
    SubmitAccepted(view, text, isReal);
    VerdictCases(answer, view.rootWord, view.usedWords, isReal);
    SubmitAlreadyUsed(view, text, isReal);
  }

  /**
   * The button as written: after an accepted entry, a new game that draws
   * the same root word (a one-line word list) sets the score to 0 but
   * keeps the entry, so the invariant no longer holds and the entry is
   * turned down as already used in the new game.
   */
  method NewGameKeepsUsedWords(view: ContentView, text: string, isReal: string -> bool)
    requires view.Valid()
    requires Verdict(Normalize(text), view.rootWord, view.usedWords, isReal) == None
    requires '\n' !in view.rootWord
    modifies view
    ensures view.rootWord == old(view.rootWord) && view.score == 0
    ensures view.usedWords == [Normalize(text)] + old(view.usedWords)
    ensures !view.Valid()
    ensures view.errorTitle == Title(AlreadyUsed) && view.showingError
  {
    var answer := Normalize(text);
    VerdictCases(answer, view.rootWord, view.usedWords, isReal);
    SubmitAccepted(view, text, isReal);
    SplitNoSeparator(view.rootWord, '\n');
    var loaded := view.StartNewGameAsWritten(Some(view.rootWord), 0);
    assert TotalLength(view.usedWords) == |answer| + TotalLength(old(view.usedWords));
    VerdictCases(answer, view.rootWord, view.usedWords, isReal);
    SubmitAlreadyUsed(view, answer, isReal);
  }

  /**
   * The button as intended: after the same steps, the new game accepts the
   * entry again and scores it from zero.
   */
  method NewGameClearsUsedWords(view: ContentView, text: string, isReal: string -> bool)
    requires view.Valid()
    requires Verdict(Normalize(text), view.rootWord, view.usedWords, isReal) == None
    requires '\n' !in view.rootWord
    modifies view
    ensures view.rootWord == old(view.rootWord)
    ensures view.usedWords == [Normalize(text)]
    ensures view.score == 10 * |Normalize(text)|
    ensures view.Valid()
  {
    var answer := Normalize(text);
    VerdictCases(answer, view.rootWord, view.usedWords, isReal);
    SubmitAccepted(view, text, isReal);
    SplitNoSeparator(view.rootWord, '\n');
    var loaded := view.StartNewGame(Some(view.rootWord), 0);
    VerdictCases(answer, view.rootWord, view.usedWords, isReal);
    SubmitAccepted(view, text, isReal);
  }
}
