/**
  The typewriter headline of `src/components/hero/Hero.tsx`: the list of words taken
  from the translations, and the effect that types a word one character at a time,
  pauses, deletes it again and moves on to the next word. Timers are left out: each
  run of the effect is one `Tick`.
*/
module Hero {
  import JsString

  /** The key prefix of the words; a key that is missing comes back as itself and starts with it. */
  const WordKeyPrefix: string := "hero.typingWords"

  /** The word shown when no translation qualifies. */
  const DefaultWord: string := "nowoczesne strony internetowe"

  /** How many translation keys are tried. */
  const WordSlots: nat := 5

  /** The key of the `i`-th word: `hero.typingWords.<i>`. */
  function WordKey(i: nat): string {
    WordKeyPrefix + "." + JsString.NatToString(i)
  }

  /** A translation is kept when it is non-empty and is not a key echoed back. */
  predicate Usable(word: string) {
    word != [] && !(WordKeyPrefix <= word)
  }

  /** The usable translations of the first `n` keys, in key order. */
  function Qualifying(t: string -> string, n: nat): seq<string>
    decreases n
  {
    if n == 0 then []
    else Qualifying(t, n - 1) + (if Usable(t(WordKey(n - 1))) then [t(WordKey(n - 1))] else [])
  }

  /**
    The first `n` keys yield at most `n` words; a word is among them exactly when it is
    the usable translation of one of those keys.
  */
  lemma {:induction false} QualifyingSpec(t: string -> string, n: nat)
    ensures |Qualifying(t, n)| <= n
    ensures forall w :: w in Qualifying(t, n) <==> exists i | 0 <= i < n :: Usable(t(WordKey(i))) && t(WordKey(i)) == w
    decreases n
  {
    if n > 0 {
      QualifyingSpec(t, n - 1);
      forall w
        ensures w in Qualifying(t, n) <==> exists i | 0 <= i < n :: Usable(t(WordKey(i))) && t(WordKey(i)) == w
      {
        if exists i | 0 <= i < n :: Usable(t(WordKey(i))) && t(WordKey(i)) == w {
          var i :| 0 <= i < n && Usable(t(WordKey(i))) && t(WordKey(i)) == w;
          if i < n - 1 {
            assert w in Qualifying(t, n - 1);
          }
        }
      }
    }
  }

  /** The words the headline cycles through: the usable translations, or the default word alone. */
  function TypingWordsOf(t: string -> string): (words: seq<string>)
    ensures 1 <= |words| <= WordSlots
    ensures forall w | w in words :: w != []
  {
    QualifyingSpec(t, WordSlots);
    var q := Qualifying(t, WordSlots);
    if q == [] then [DefaultWord] else q
  }

  /**
    Without a single usable translation the default word is the only one; otherwise
    the list is exactly the usable translations.
  */
  lemma TypingWordsChoice(t: string -> string)
    ensures (forall i | 0 <= i < WordSlots :: !Usable(t(WordKey(i)))) ==> TypingWordsOf(t) == [DefaultWord]
    ensures (exists i | 0 <= i < WordSlots :: Usable(t(WordKey(i)))) ==>
              forall w :: w in TypingWordsOf(t) <==> exists i | 0 <= i < WordSlots :: Usable(t(WordKey(i))) && t(WordKey(i)) == w
  {
    QualifyingSpec(t, WordSlots);
    if exists i | 0 <= i < WordSlots :: Usable(t(WordKey(i))) {
      var i :| 0 <= i < WordSlots && Usable(t(WordKey(i)));
      assert t(WordKey(i)) in Qualifying(t, WordSlots);
    }
  }

  /** `typingWords`: tries the five keys in order and keeps the usable translations. */
  method TypingWords(t: string -> string) returns (words: seq<string>)
    ensures words == TypingWordsOf(t)
  {
    words := [];
    for i := 0 to WordSlots
      invariant words == Qualifying(t, i)
    {
      var word := t(WordKey(i));
      if word != [] && !(WordKeyPrefix <= word) {
        words := words + [word];
      }
    }
    if |words| == 0 {
      words := [DefaultWord];
    }
  }

  // ---------------------------------------------------------------------------
  // the typing effect

  /** The effect's state: the current word's index, the text shown, and whether it is deleting. */
  datatype Typing = Typing(index: nat, text: string, deleting: bool)

  /** The state makes sense for the word list: a valid index and a text that is a prefix of its word. */
  predicate Consistent(words: seq<string>, s: Typing) {
    0 < |words| && s.index < |words| && s.text <= words[s.index]
  }

  /** One run of the typing effect; it keeps the state consistent, and `StepSpec` says what it does. */
  function Step(words: seq<string>, s: Typing): (r: Typing)
    requires Consistent(words, s)
    ensures Consistent(words, r)
  {
    var word := words[s.index];
    if !s.deleting && s.text == word then
      Typing(s.index, s.text, true)
    else if s.deleting && s.text == [] then
      Typing((s.index + 1) % |words|, [], false)
    else if s.deleting then
      Typing(s.index, word[..|s.text| - 1], true)
    else
      Typing(s.index, word[..|s.text| + 1], false)
  }

  /**
    What one run does: a fully typed word turns to deleting with the same text; an emptied
    word stops deleting and moves to the next word, cyclically; otherwise one character is
    typed or deleted.
  */
  lemma StepSpec(words: seq<string>, s: Typing)
    requires Consistent(words, s)
    ensures var r := Step(words, s);
            (!s.deleting && s.text == words[s.index] ==> r == s.(deleting := true)) &&
            (s.deleting && s.text == [] ==> r == Typing((s.index + 1) % |words|, [], false)) &&
            (!s.deleting && s.text != words[s.index] ==>
               r.index == s.index && !r.deleting && r.text == s.text + [words[s.index][|s.text|]]) &&
            (s.deleting && s.text != [] ==>
               r.index == s.index && r.deleting && r.text + [s.text[|s.text| - 1]] == s.text)
  {
    var word := words[s.index];
    if s.deleting && s.text != [] {
      assert s.text[..|s.text| - 1] + [s.text[|s.text| - 1]] == s.text;
    } else if !s.deleting && s.text != word {
      assert word[..|s.text| + 1] == s.text + [word[|s.text|]];
    }
  }

  /** `k` runs of the effect. */
  function Run(words: seq<string>, s: Typing, k: nat): (r: Typing)
    requires Consistent(words, s)
    ensures Consistent(words, r)
    decreases k
  {
    if k == 0 then s else Run(words, Step(words, s), k - 1)
  }

  /** A positive number of runs is one step, then the rest. */
  lemma RunSucc(words: seq<string>, s: Typing, n: nat)
    requires Consistent(words, s) && n > 0
    ensures Run(words, s, n) == Run(words, Step(words, s), n - 1)
  {
  }

  lemma {:induction false} RunAdd(words: seq<string>, s: Typing, j: nat, k: nat)
    requires Consistent(words, s)
    ensures Run(words, s, j + k) == Run(words, Run(words, s, j), k)
    decreases j
  {
    if j > 0 {
      RunSucc(words, s, j + k);
      RunSucc(words, s, j);
      RunAdd(words, Step(words, s), j - 1, k);
    }
  }

  /** Typing from a prefix of length `m` for `k` more characters reaches the prefix of length `m + k`. */
  lemma {:induction false} TypingPhase(words: seq<string>, i: nat, m: nat, k: nat)
    requires 0 < |words| && i < |words| && m + k <= |words[i]|
    ensures Run(words, Typing(i, words[i][..m], false), k) == Typing(i, words[i][..m + k], false)
    decreases k
  {
    if k > 0 {
      var s := Typing(i, words[i][..m], false);
      assert words[i][..m] != words[i];
      assert Step(words, s) == Typing(i, words[i][..m + 1], false);
      TypingPhase(words, i, m + 1, k - 1);
    }
  }

  /** Deleting from a prefix of length `m` for `k` characters reaches the prefix of length `m - k`. */
  lemma {:induction false} DeletingPhase(words: seq<string>, i: nat, m: nat, k: nat)
    requires 0 < |words| && i < |words| && k <= m <= |words[i]|
    ensures Run(words, Typing(i, words[i][..m], true), k) == Typing(i, words[i][..m - k], true)
    decreases k
  {
    if k > 0 {
      var s := Typing(i, words[i][..m], true);
      assert Step(words, s) == Typing(i, words[i][..m - 1], true);
      DeletingPhase(words, i, m - 1, k - 1);
    }
  }

  /** A single run is one step. */
  lemma RunOne(words: seq<string>, s: Typing)
    requires Consistent(words, s)
    ensures Run(words, s, 1) == Step(words, s)
  {
    assert Run(words, s, 1) == Run(words, Step(words, s), 0);
  }

  /** Typing a word from the empty text and the pause after it take `|word| + 1` runs. */
  lemma TypeAndPause(words: seq<string>, i: nat)
    requires 0 < |words| && i < |words|
    ensures Run(words, Typing(i, [], false), |words[i]| + 1) == Typing(i, words[i], true)
  {
    var w := words[i];
    var typed := Typing(i, w, false);
    assert w[..0] == [] && w[..|w|] == w;
    TypingPhase(words, i, 0, |w|);
    RunOne(words, typed);
    RunAdd(words, Typing(i, [], false), |w|, 1);
  }

  /** Deleting a whole word and the switch to the next one take `|word| + 1` runs. */
  lemma DeleteAndSwitch(words: seq<string>, i: nat)
    requires 0 < |words| && i < |words|
    ensures Run(words, Typing(i, words[i], true), |words[i]| + 1) == Typing((i + 1) % |words|, [], false)
  {
    var w := words[i];
    var emptied := Typing(i, [], true);
    assert w[..0] == [] && w[..|w|] == w;
    DeletingPhase(words, i, |w|, |w|);
    RunOne(words, emptied);
    RunAdd(words, Typing(i, w, true), |w|, 1);
  }

  /**
    A whole cycle for one word: from the empty text, typing the word, the pause, deleting it
    and the switch take `2 * |word| + 2` runs and end on the next word, empty and typing.
  */
  lemma WordCycle(words: seq<string>, i: nat)
    requires 0 < |words| && i < |words|
    ensures Run(words, Typing(i, [], false), 2 * |words[i]| + 2) == Typing((i + 1) % |words|, [], false)
  {
    var n := |words[i]|;
    TypeAndPause(words, i);
    DeleteAndSwitch(words, i);
    RunAdd(words, Typing(i, [], false), n + 1, n + 1);
    assert (n + 1) + (n + 1) == 2 * n + 2;
  }

  // ---------------------------------------------------------------------------
  // translations that change without a change of locale

  /** Translations that give every key the same usable word. */
  function AbcEverywhere(key: string): string {
    "abc"
  }

  /** Empty translations: `t` echoes every key back. */
  function EchoKey(key: string): string {
    key
  }

  /** Every word key starts with the prefix, so an echoed key is never usable. */
  lemma EchoedKeysUnusable(i: nat)
    ensures !Usable(EchoKey(WordKey(i)))
  {
    var k := WordKey(i);
    assert k[..|WordKeyPrefix|] == WordKeyPrefix;
  }

  /** Five usable keys yield five words. */
  lemma AbcWords()
    ensures TypingWordsOf(AbcEverywhere) == ["abc", "abc", "abc", "abc", "abc"]
  {
    assert Usable("abc");
    assert Qualifying(AbcEverywhere, 1) == ["abc"];
    assert Qualifying(AbcEverywhere, 2) == ["abc", "abc"];
    assert Qualifying(AbcEverywhere, 3) == ["abc", "abc", "abc"];
    assert Qualifying(AbcEverywhere, 4) == ["abc", "abc", "abc", "abc"];
    assert Qualifying(AbcEverywhere, 5) == ["abc", "abc", "abc", "abc", "abc"];
  }

  /** Empty translations leave the default word alone. */
  lemma EchoedWords()
    ensures TypingWordsOf(EchoKey) == [DefaultWord]
  {
    forall i | 0 <= i < WordSlots
      ensures !Usable(EchoKey(WordKey(i)))
    {
      EchoedKeysUnusable(i);
    }
    TypingWordsChoice(EchoKey);
  }

  /** A number below the modulus is its own remainder. */
  lemma SmallModulus(a: nat, n: nat)
    requires a < n
    ensures a % n == a
  {
  }

  /** With two words or more, a full cycle of a three-letter first word takes 8 runs and reaches index 1. */
  lemma FirstCycleOfThree(words: seq<string>)
    requires 2 <= |words| && |words[0]| == 3
    ensures Run(words, Typing(0, [], false), 8) == Typing(1, [], false)
  {
    WordCycle(words, 0);
    SmallModulus(1, |words|);
  }

  /**
    The words shrink while the effect is past the first word: after one full cycle of
    the first of five words the index is 1, and with empty translations the list has
    one word only, so the state no longer fits it (`typingWords[1]` is `undefined`).
  */
  lemma WordsShrinkPastIndex()
    ensures Run(TypingWordsOf(AbcEverywhere), Typing(0, [], false), 8) == Typing(1, [], false)
    ensures TypingWordsOf(EchoKey) == [DefaultWord]
    ensures !Consistent(TypingWordsOf(EchoKey), Typing(1, [], false))
  {
    AbcWords();
    FirstCycleOfThree(TypingWordsOf(AbcEverywhere));
    EchoedWords();
  }

  /**
    The first load: while the bundle is still empty the default word is typed, and three
    runs show `now`; when the bundle arrives the words become `abc`, of which `now` is
    not a prefix.
  */
  lemma LoadedWordsMidWord()
    ensures Run([DefaultWord], Typing(0, [], false), 3) == Typing(0, "now", false)
    ensures !Consistent(TypingWordsOf(AbcEverywhere), Typing(0, "now", false))
  {
    DefaultWordTyped();
    AbcWords();
    assert !("now" <= "abc") by {
      assert "now"[0] != "abc"[0];
    }
  }

  /** Three runs over the default word alone show its first three letters. */
  lemma DefaultWordTyped()
    ensures Run([DefaultWord], Typing(0, [], false), 3) == Typing(0, "now", false)
  {
    TypingPhase([DefaultWord], 0, 0, 3);
    assert DefaultWord[..0] == [] && DefaultWord[..3] == "now";
  }

  /** The headline's state: the word list and the three state variables of the effect. */
  class Typewriter {
    var words: seq<string>
    var currentWordIndex: nat
    var displayText: string
    var isDeleting: bool

    function State(): Typing
      reads this
    {
      Typing(currentWordIndex, displayText, isDeleting)
    }

    /** What the effect relies on: a non-empty list, a valid index, a prefix of the current word. */
    predicate Valid()
      reads this
    {
      Consistent(words, State())
    }

    /** The first render: the words of the current translations, the first one, nothing typed. */
    constructor (t: string -> string)
      ensures Valid()
      ensures words == TypingWordsOf(t)
      ensures State() == Typing(0, [], false)
    {
      var initial := TypingWords(t);
      words := initial;
      currentWordIndex := 0;
      displayText := [];
      isDeleting := false;
    }

    /** A change of locale: the words of the new translations, and the effect starts over. */
    method ChangeLocale(t: string -> string)
      modifies this
      ensures Valid()
      ensures words == TypingWordsOf(t)
      ensures State() == Typing(0, [], false)
    {
      words := TypingWords(t);
      currentWordIndex := 0;
      displayText := [];
      isDeleting := false;
    }

    /**
      A render where the translations changed but the locale did not (a bundle that
      arrives, or fails and leaves none): the words are recomputed and the effect's state
      is kept, since the reset runs on a change of locale only.
    */
    method UpdateWords(t: string -> string)
      modifies this
      ensures words == TypingWordsOf(t)
      ensures State() == old(State())
    {
      words := TypingWords(t);
    }

    /**
      The same render with the reset tied to the words: a state that still fits is kept,
      and new words start over, so the effect never sees an index past the list.
    */
    method UpdateWordsWithReset(t: string -> string)
      requires Valid()
      modifies this
      ensures Valid()
      ensures words == TypingWordsOf(t)
      ensures words == old(words) ==> State() == old(State())
      ensures words != old(words) ==> State() == Typing(0, [], false)
    {
      var recomputed := TypingWords(t);
      if recomputed != words {
        words := recomputed;
        currentWordIndex := 0;
        displayText := [];
        isDeleting := false;
      }
    }

    /** One run of the typing effect, once its timer (if any) has fired. */
    method Tick()
      requires Valid()
      modifies this
      ensures Valid()
      ensures words == old(words)
      ensures State() == Step(words, old(State()))
    {
      var currentWord := words[currentWordIndex];
      if !isDeleting && displayText == currentWord {
        isDeleting := true;
        return;
      }
      if isDeleting && displayText == [] {
        isDeleting := false;
        currentWordIndex := (currentWordIndex + 1) % |words|;
        return;
      }
      if isDeleting {
        displayText := currentWord[..|displayText| - 1];
      } else {
        displayText := currentWord[..|displayText| + 1];
      }
    }
  }
}
