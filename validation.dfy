/**
 * The guards of `addNewWord`, as values: which check an answer fails
 * first, what the player is told, and the invariant the list of accepted
 * words keeps while the root word stays the same.
 */
module Validation {
  import opened Wrappers
  import opened Text

  /** The five ways `addNewWord` turns an answer down. */
  datatype Rejection = TooShort | SameAsRoot | AlreadyUsed | NotPossible | NotReal

  /** The order in which `addNewWord` runs its guards. */
  const CheckOrder: seq<Rejection> := [TooShort, SameAsRoot, AlreadyUsed, NotPossible, NotReal]

  /** `word` can be spelt with the letters of `root`, each letter used at most once. */
  predicate Spellable(word: string, root: string) {
    multiset(word) <= multiset(root)
  }

  /** The answer gets past the guard that would reject it with `check`. */
  predicate Passes(check: Rejection, answer: string, root: string, used: seq<string>, isReal: string -> bool) {
    match check
    case TooShort => |answer| > 2
    case SameAsRoot => answer != root
    case AlreadyUsed => answer !in used
    case NotPossible => Spellable(answer, root)
    case NotReal => isReal(answer)
  }

  /** The first of `checks` that the answer fails, if any. */
  function FirstFailure(checks: seq<Rejection>, answer: string, root: string, used: seq<string>, isReal: string -> bool): (r: Option<Rejection>)
    ensures r.None? <==> forall i :: 0 <= i < |checks| ==> Passes(checks[i], answer, root, used, isReal)
    ensures r.Some? ==> r.value in checks && !Passes(r.value, answer, root, used, isReal)
  {
    if checks == [] then None
    else if !Passes(checks[0], answer, root, used, isReal) then Some(checks[0])
    else FirstFailure(checks[1..], answer, root, used, isReal)
  }

  /** The check that fails is the first failing one: every check before it passes. */
  lemma {:induction false} FirstFailureIsFirst(checks: seq<Rejection>, answer: string, root: string, used: seq<string>, isReal: string -> bool)
    requires FirstFailure(checks, answer, root, used, isReal).Some?
    ensures var k := FirstFailure(checks, answer, root, used, isReal).value;
      exists i :: 0 <= i < |checks| && checks[i] == k &&
        forall j :: 0 <= j < i ==> Passes(checks[j], answer, root, used, isReal)
  {
    var k := FirstFailure(checks, answer, root, used, isReal).value;
    if Passes(checks[0], answer, root, used, isReal) {
      FirstFailureIsFirst(checks[1..], answer, root, used, isReal);
      var i :| 0 <= i < |checks[1..]| && checks[1..][i] == k &&
        forall j :: 0 <= j < i ==> Passes(checks[1..][j], answer, root, used, isReal);
      assert checks[i + 1] == k;
      forall j | 0 <= j < i + 1
        ensures Passes(checks[j], answer, root, used, isReal)
      {
        if j > 0 {
          assert checks[j] == checks[1..][j - 1];
        }
      }
    } else {
      assert checks[0] == k;
    }
  }

  /** The check a failing answer is rejected with never depends on the checks after it. */
  lemma {:induction false} FirstFailureIgnoresLater(checks: seq<Rejection>, n: nat, answer: string, root: string, used: seq<string>, isReal: string -> bool)
    requires n <= |checks|
    requires FirstFailure(checks[..n], answer, root, used, isReal).Some?
    ensures FirstFailure(checks, answer, root, used, isReal) == FirstFailure(checks[..n], answer, root, used, isReal)
  {
    if !Passes(checks[0], answer, root, used, isReal) {
    } else {
      assert checks[..n][1..] == checks[1..][..n - 1];
      FirstFailureIgnoresLater(checks[1..], n - 1, answer, root, used, isReal);
    }
  }

  /** What `addNewWord` decides about a normalised answer: `None` accepts it. */
  function Verdict(answer: string, root: string, used: seq<string>, isReal: string -> bool): Option<Rejection> {
    FirstFailure(CheckOrder, answer, root, used, isReal)
  }

  /** The verdict, guard by guard: each rejection happens exactly when its guard fails and all earlier ones pass. */
  lemma VerdictCases(answer: string, root: string, used: seq<string>, isReal: string -> bool)
    ensures Verdict(answer, root, used, isReal) == Some(TooShort) <==> |answer| <= 2
    ensures Verdict(answer, root, used, isReal) == Some(SameAsRoot) <==> |answer| > 2 && answer == root
    ensures Verdict(answer, root, used, isReal) == Some(AlreadyUsed) <==>
      |answer| > 2 && answer != root && answer in used
    ensures Verdict(answer, root, used, isReal) == Some(NotPossible) <==>
      |answer| > 2 && answer != root && answer !in used && !Spellable(answer, root)
    ensures Verdict(answer, root, used, isReal) == Some(NotReal) <==>
      |answer| > 2 && answer != root && answer !in used && Spellable(answer, root) && !isReal(answer)
    ensures Verdict(answer, root, used, isReal) == None <==>
      |answer| > 2 && answer != root && answer !in used && Spellable(answer, root) && isReal(answer)
  {
    var c1: seq<Rejection> := [SameAsRoot, AlreadyUsed, NotPossible, NotReal];
    var c2: seq<Rejection> := [AlreadyUsed, NotPossible, NotReal];
    var c3: seq<Rejection> := [NotPossible, NotReal];
    var c4: seq<Rejection> := [NotReal];
    assert CheckOrder[1..] == c1 && c1[1..] == c2 && c2[1..] == c3 && c3[1..] == c4 && c4[1..] == [];
    var r4 := FirstFailure(c4, answer, root, used, isReal);
    assert r4 == if isReal(answer) then None else Some(NotReal);
    var r3 := FirstFailure(c3, answer, root, used, isReal);
    assert r3 == if !Spellable(answer, root) then Some(NotPossible) else r4;
    var r2 := FirstFailure(c2, answer, root, used, isReal);
    assert r2 == if answer in used then Some(AlreadyUsed) else r3;
    var r1 := FirstFailure(c1, answer, root, used, isReal);
    assert r1 == if answer == root then Some(SameAsRoot) else r2;
    assert Verdict(answer, root, used, isReal) == if |answer| <= 2 then Some(TooShort) else r1;
  }

  /** When an earlier guard already rejects the answer, the spell checker's opinion is never needed. */
  lemma VerdictIgnoresSpellChecker(answer: string, root: string, used: seq<string>, isReal: string -> bool, otherIsReal: string -> bool)
    requires Verdict(answer, root, used, isReal) != Some(NotReal)
    requires Verdict(answer, root, used, isReal) != None
    ensures Verdict(answer, root, used, otherIsReal) == Verdict(answer, root, used, isReal)
  {
    VerdictCases(answer, root, used, isReal);
    VerdictCases(answer, root, used, otherIsReal);
  }

  /** With an empty root word no answer can be accepted. */
  lemma EmptyRootAcceptsNothing(answer: string, used: seq<string>, isReal: string -> bool)
    ensures Verdict(answer, "", used, isReal) != None
  {
    VerdictCases(answer, "", used, isReal);
    if Spellable(answer, "") {
      assert |multiset(answer)| == 0;
    }
  }

  /** The alert title for each rejection. */
  function Title(kind: Rejection): string {
    match kind
    case TooShort => "Entry is too short"
    case SameAsRoot => "Same as Root Word"
    case AlreadyUsed => "Word used already"
    case NotPossible => "Word not possible"
    case NotReal => "Word not recognize"
  }

  /** The alert message for each rejection; two of them quote the root word. */
  function Message(kind: Rejection, root: string): string {
    match kind
    case TooShort => "Your input word is too short. Make sure your new word has at least three letters."
    case SameAsRoot => "You have to build a new word out of the letters of " + root
    case AlreadyUsed => "Be more original!"
    case NotPossible => "You can't spell that word from '" + root + "'"
    case NotReal => "You can't just make them up, you know!"
  }

  /** Every rejection has its own title, so the player can tell them apart. */
  lemma TitlesDistinct(k1: Rejection, k2: Rejection)
    requires k1 != k2
    ensures Title(k1) != Title(k2)
  {
  }

  /** The number of letters in a list of words; a game's score is ten times this for its accepted words. */
  function TotalLength(words: seq<string>): nat {
    if words == [] then 0 else |words[0]| + TotalLength(words[1..])
  }

  /**
   * What every accepted word satisfies while the root word stays fixed:
   * normalised, at least three letters, not the root word, spellable from
   * it, and listed once.
   */
  ghost predicate WordsValid(used: seq<string>, root: string) {
    && (forall i :: 0 <= i < |used| ==>
          IsNormalized(used[i]) && |used[i]| > 2 && used[i] != root && Spellable(used[i], root))
    && (forall i, j :: 0 <= i < j < |used| ==> used[i] != used[j])
  }

  /** Accepting a normalised answer keeps the invariant of the list. */
  lemma AcceptKeepsWordsValid(answer: string, root: string, used: seq<string>, isReal: string -> bool)
    requires WordsValid(used, root)
    requires IsNormalized(answer)
    requires Verdict(answer, root, used, isReal) == None
    ensures WordsValid([answer] + used, root)
    ensures TotalLength([answer] + used) == |answer| + TotalLength(used)
  {
    VerdictCases(answer, root, used, isReal);
    var after := [answer] + used;
    assert after[1..] == used;
    forall i, j | 0 <= i < j < |after|
      ensures after[i] != after[j]
    {
      if i == 0 {
        assert after[j] == used[j - 1];
      } else {
        assert after[i] == used[i - 1] && after[j] == used[j - 1];
      }
    }
  }
}
