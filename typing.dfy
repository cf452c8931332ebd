/** The typed-text animation of the home section (`typeWriter`): each tick
    types or deletes one character of the current phrase and picks the
    delay before the next tick. The rules are stated for any list of
    non-empty phrases and then used with the page's four. */
module Typing {
  import opened Optional
  import opened Text

  /** `professionTexts` */
  const Phrases: seq<string> :=
    ["Computer Engineer", "AI/ML Engineer", "Deep Learning Expert", "Software Developer"]

  /** Delays, in milliseconds, chosen at the end of a tick. */
  const TypeDelay: nat := 80
  const DeleteDelay: nat := 30
  const FullPause: nat := 2000
  const EmptyPause: nat := 500

  /** The module-level variables `textIndex`, `charIndex`, `isDeleting`, `typingSpeed`. */
  datatype State = State(textIndex: nat, charIndex: nat, isDeleting: bool, typingSpeed: nat)

  /** Their values when the script loads. */
  const Initial := State(0, 0, false, 100)

  /** A phrase list the animation can cycle through. */
  predicate ValidPhrases(ps: seq<string>)
  {
    |ps| > 0 && forall i :: 0 <= i < |ps| ==> ps[i] != []
  }

  lemma PagePhrases()
    ensures ValidPhrases(Phrases) && |Phrases| == 4
    ensures |Phrases[0]| == 17 && |Phrases[1]| == 14 && |Phrases[2]| == 20 && |Phrases[3]| == 18
  {
  }

  /** What holds between ticks: the phrase index is in range; while typing at
      least one character of the phrase is still to come, while deleting at
      least one is still shown. */
  predicate Inv(ps: seq<string>, s: State)
  {
    s.textIndex < |ps|
    && (if s.isDeleting then 1 <= s.charIndex <= |ps[s.textIndex]|
        else s.charIndex < |ps[s.textIndex]|)
  }

  /** One tick of `typeWriter` on the variables. The character index moves
      one step in the current direction, and the invariant is kept, so the
      index never leaves `0..|phrase|`. */
  function Step(ps: seq<string>, s: State): (r: State)
    requires ValidPhrases(ps) && Inv(ps, s)
    ensures Inv(ps, r)
    ensures r.charIndex <= |ps[r.textIndex]|
    ensures r.charIndex == if s.isDeleting then s.charIndex - 1 else s.charIndex + 1
  {
    var c := if s.isDeleting then s.charIndex - 1 else s.charIndex + 1;
    if !s.isDeleting && c == |ps[s.textIndex]| then
      State(s.textIndex, c, true, FullPause)
    else if s.isDeleting && c == 0 then
      State((s.textIndex + 1) % |ps|, c, false, EmptyPause)
    else
      State(s.textIndex, c, s.isDeleting, if s.isDeleting then DeleteDelay else TypeDelay)
  }

  /** The text a tick from `s` puts on the page: the first characters of the
      phrase it worked on, as many as the new character index says; when a
      deletion empties a phrase that is also the empty prefix of the next. */
  function TickText(ps: seq<string>, s: State): (t: string)
    requires ValidPhrases(ps) && Inv(ps, s)
    ensures t == ps[s.textIndex][..Step(ps, s).charIndex]
    ensures t == ps[Step(ps, s).textIndex][..Step(ps, s).charIndex]
  {
    var phrase := ps[s.textIndex];
    if s.isDeleting then Substring(phrase, 0, s.charIndex - 1)
    else Substring(phrase, 0, s.charIndex + 1)
  }

  /** The transition rules: finishing a phrase turns to deleting after a
      2000 ms pause; emptying it moves on to the next phrase (wrapping)
      after a 500 ms pause; any other tick keeps the direction and waits
      80 ms when typing and 30 ms when deleting. */
  lemma StepRules(ps: seq<string>, s: State)
    requires ValidPhrases(ps) && Inv(ps, s)
    ensures var len := |ps[s.textIndex]|;
            && (!s.isDeleting && s.charIndex + 1 == len ==>
                  Step(ps, s) == State(s.textIndex, len, true, 2000))
            && (s.isDeleting && s.charIndex == 1 ==>
                  Step(ps, s) == State((s.textIndex + 1) % |ps|, 0, false, 500))
            && (!s.isDeleting && s.charIndex + 1 < len ==>
                  Step(ps, s) == State(s.textIndex, s.charIndex + 1, false, 80))
            && (s.isDeleting && s.charIndex > 1 ==>
                  Step(ps, s) == State(s.textIndex, s.charIndex - 1, true, 30))
  {
  }

  /** `n` ticks in a row. */
  function Run(ps: seq<string>, s: State, n: nat): (r: State)
    requires ValidPhrases(ps) && Inv(ps, s)
    ensures Inv(ps, r)
  {
    if n == 0 then s else Step(ps, Run(ps, s, n - 1))
  }

  lemma {:induction false} RunAdds(ps: seq<string>, s: State, m: nat, n: nat)
    requires ValidPhrases(ps) && Inv(ps, s)
    ensures Run(ps, s, m + n) == Run(ps, Run(ps, s, m), n)
  {
    if n > 0 {
      RunAdds(ps, s, m, n - 1);
    }
  }

  /** Typing a phrase from scratch: after `k` ticks the first `k` characters
      are shown, and the `k`-th tick is the last one of the phrase exactly
      when `k` is its length. */
  lemma {:induction false} TypingPhase(ps: seq<string>, i: nat, speed: nat, k: nat)
    requires ValidPhrases(ps) && i < |ps| && 1 <= k <= |ps[i]|
    ensures Run(ps, State(i, 0, false, speed), k)
            == State(i, k, k == |ps[i]|, if k == |ps[i]| then FullPause else TypeDelay)
  {
    if k > 1 {
      TypingPhase(ps, i, speed, k - 1);
    }
  }

  /** While a phrase is typed, the `k`-th tick shows its first `k` characters. */
  lemma TypingShowsPrefixes(ps: seq<string>, i: nat, speed: nat, k: nat)
    requires ValidPhrases(ps) && i < |ps| && 1 <= k <= |ps[i]|
    ensures TickText(ps, Run(ps, State(i, 0, false, speed), k - 1)) == ps[i][..k]
  {
    TypingPhase(ps, i, speed, k);
    if k > 1 {
      TypingPhase(ps, i, speed, k - 1);
    }
  }

  /** Deleting a fully shown phrase: after `k` ticks `|phrase| - k`
      characters remain, and the tick that removes the last one moves on to
      the next phrase. */
  lemma {:induction false} DeletingPhase(ps: seq<string>, i: nat, k: nat)
    requires ValidPhrases(ps) && i < |ps| && 1 <= k <= |ps[i]|
    ensures Run(ps, State(i, |ps[i]|, true, FullPause), k)
            == if k == |ps[i]| then State((i + 1) % |ps|, 0, false, EmptyPause)
               else State(i, |ps[i]| - k, true, DeleteDelay)
  {
    if k > 1 {
      DeletingPhase(ps, i, k - 1);
    }
  }

  /** One phrase takes twice its length in ticks, from the empty text back
      to the empty text of the next phrase. */
  lemma PhraseCycle(ps: seq<string>, i: nat, speed: nat)
    requires ValidPhrases(ps) && i < |ps|
    ensures Run(ps, State(i, 0, false, speed), 2 * |ps[i]|)
            == State((i + 1) % |ps|, 0, false, EmptyPause)
  {
    var len := |ps[i]|;
    TypingPhase(ps, i, speed, len);
    DeletingPhase(ps, i, len);
    RunAdds(ps, State(i, 0, false, speed), len, len);
  }

  lemma SmallMod(a: nat, n: nat)
    requires a < n
    ensures a % n == a
  {
  }

  /** Ticks from the start of phrase `i` to the start of phrase `j`. */
  function TicksBetween(ps: seq<string>, i: nat, j: nat): nat
    requires i <= j <= |ps|
    decreases j - i
  {
    if i == j then 0 else 2 * |ps[i]| + TicksBetween(ps, i + 1, j)
  }

  /** From the start of phrase `i`, the start of a later phrase `j` is
      reached after twice the lengths of the phrases in between. */
  lemma {:induction false} RunToPhrase(ps: seq<string>, i: nat, j: nat, speed: nat)
    requires ValidPhrases(ps) && i < j <= |ps|
    ensures Run(ps, State(i, 0, false, speed), TicksBetween(ps, i, j))
            == State(j % |ps|, 0, false, EmptyPause)
    decreases j - i
  {
    var s := State(i, 0, false, speed);
    var m := 2 * |ps[i]|;
    var rest := TicksBetween(ps, i + 1, j);
    assert TicksBetween(ps, i, j) == m + rest;
    PhraseCycle(ps, i, speed);
    if i + 1 < j {
      var next := State(i + 1, 0, false, EmptyPause);
      SmallMod(i + 1, |ps|);
      assert Run(ps, s, m) == next;
      RunToPhrase(ps, i + 1, j, EmptyPause);
      RunAdds(ps, s, m, rest);
    } else {
      assert rest == 0;
    }
  }

  /** After 138 ticks, twice the total length of the page's four phrases,
      the animation is back at the start of the first phrase. */
  lemma AllPhrasesCycle()
    ensures ValidPhrases(Phrases) && TicksBetween(Phrases, 0, |Phrases|) == 138
    ensures Run(Phrases, Initial, TicksBetween(Phrases, 0, |Phrases|)) == State(0, 0, false, EmptyPause)
  {
    PagePhrases();
    RunToPhrase(Phrases, 0, |Phrases|, 100);
  }

  /** The `.text-animate h3` element and the animation's variables. */
  class TypeWriter {
    var textIndex: nat
    var charIndex: nat
    var isDeleting: bool
    var typingSpeed: nat
    /** `textContent` of the element. */
    var shown: string

    function Current(): State
      reads this
    {
      State(textIndex, charIndex, isDeleting, typingSpeed)
    }

    ghost predicate Valid()
      reads this
    {
      ValidPhrases(Phrases) && Inv(Phrases, Current())
    }

    /** The variables as the script loads, and the element's text as the
        markup has it. */
    constructor (markupText: string)
      ensures Valid() && Current() == Initial && shown == markupText
    {
      textIndex, charIndex, isDeleting, typingSpeed := 0, 0, false, 100;
      shown := markupText;
      PagePhrases();
    }

    /** One call of `typeWriter`. When the element is missing nothing changes
        and no further tick is scheduled; otherwise the variables take one
        step, the element shows the first `charIndex` characters of the
        phrase this tick worked on, and the next tick is due after the new
        `typingSpeed`. */
    method Tick(hasElement: bool) returns (next: Option<nat>)
      requires Valid()
      modifies this
      ensures Valid()
      ensures !hasElement ==> next == None && Current() == old(Current()) && shown == old(shown)
      ensures hasElement ==> Current() == Step(Phrases, old(Current())) && next == Some(typingSpeed)
      ensures hasElement ==> shown == TickText(Phrases, old(Current()))
      ensures hasElement ==> shown == Phrases[old(textIndex)][..charIndex]
    {
      if !hasElement {
        return None;
      }
      ghost var before := Current();
      var currentText := Phrases[textIndex];
      if isDeleting {
        shown := Substring(currentText, 0, charIndex - 1);
        charIndex := charIndex - 1;
      } else {
        shown := Substring(currentText, 0, charIndex + 1);
        charIndex := charIndex + 1;
      }
      if !isDeleting && charIndex == |currentText| {
        isDeleting := true;
        typingSpeed := FullPause;
      } else if isDeleting && charIndex == 0 {
        isDeleting := false;
        textIndex := (textIndex + 1) % |Phrases|;
        typingSpeed := EmptyPause;
      } else {
        typingSpeed := if isDeleting then DeleteDelay else TypeDelay;
      }
      assert Current() == Step(Phrases, before);
      next := Some(typingSpeed);
    }
  }
}
