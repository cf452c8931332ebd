/** The contact form of the page: per-field validation on blur and on input,
    the message character counter, and submission with its two outcomes. */
module ContactForm {
  import opened Optional
  import opened Text
  import opened FieldRules

  /** What the `.error-message` element beside an input shows: nothing, or
      the message of a rule. */
  datatype ErrorText = Blank | Shows(rule: Rule)

  /** The element's `textContent`. */
  function Content(e: ErrorText): string
  {
    match e
    case Blank => ""
    case Shows(rule) => ErrorMessage(rule)
  }

  /** Only a blank element has empty text: every rule has a message. */
  lemma ContentEmptyIffBlank(e: ErrorText)
    ensures Content(e) == "" <==> e == Blank
  {
    if e.Shows? {
      assert |Content(e)| > 0;
    }
  }

  /** One `input` or `textarea` of the form: its `name`, current and default
      value, class list, and what the `.error-message` element beside it
      shows (None when there is no such element). */
  datatype Input = Input(name: string, value: string, defaultValue: string,
                         classes: set<string>, errorText: Option<ErrorText>)

  /** The verdict `validateInput` reaches on an input. */
  predicate Accepted(i: Input)
  {
    Accepts(i.name, i.value)
  }

  /** The message shown under a rejected input: the one of its rule. */
  function MessageFor(i: Input): ErrorText
    requires !Accepted(i)
  {
    Shows(RuleFor(i.name).value)
  }

  /** The input with its status set to the verdict `ok` and `text` in its
      error element, when it has one. */
  function Mark(i: Input, ok: bool, text: ErrorText): Input
  {
    var classes := if ok then i.classes - {"error"} + {"success"} else i.classes + {"error"} - {"success"};
    i.(classes := classes, errorText := if i.errorText.Some? then Some(text) else None)
  }

  /** The input as `validateInput` leaves it. */
  function Validated(i: Input): Input
  {
    var ok := Accepted(i);
    Mark(i, ok, if ok then Blank else MessageFor(i))
  }

  /** What `validateInput` does to an input: exactly one of `error` and
      `success`, matching the verdict; all other classes, the values and the
      name untouched; the error text is the rule's message on rejection and
      empty on acceptance. */
  lemma ValidatedStatus(i: Input)
    ensures var r := Validated(i);
            && r.name == i.name && r.value == i.value && r.defaultValue == i.defaultValue
            && (("error" in r.classes) <==> !Accepted(i))
            && (("success" in r.classes) <==> Accepted(i))
            && r.classes - {"error", "success"} == i.classes - {"error", "success"}
            && (r.errorText.Some? <==> i.errorText.Some?)
            && (r.errorText.Some? ==> (r.errorText.value == Blank <==> Accepted(i)))
            && (r.errorText.Some? && !Accepted(i) ==> r.errorText.value == Shows(RuleFor(i.name).value))
  {
  }

  /** A blur event: only an input whose trimmed value is non-empty is validated. */
  function Blurred(i: Input): (r: Input)
    ensures Trim(i.value) == [] ==> r == i
    ensures Trim(i.value) != [] ==> r == Validated(i)
  {
    if Trim(i.value) != "" then Validated(i) else i
  }

  /** An input event carrying the new value `v`: the value changes, and the
      input is validated again only if it is currently marked `error`. */
  function Typed(i: Input, v: string): (r: Input)
    ensures r.value == v && r.name == i.name
    ensures "error" !in i.classes ==> r == i.(value := v)
    ensures "error" in i.classes ==> r == Validated(i.(value := v))
  {
    var j := i.(value := v);
    if "error" in j.classes then Validated(j) else j
  }

  /** A run of input events, one per value in `vs`. */
  function TypedAll(i: Input, vs: seq<string>): Input
    decreases |vs|
  {
    if vs == [] then i else TypedAll(Typed(i, vs[0]), vs[1..])
  }

  /** Typing into an input that is not marked `error` never validates it:
      its classes and error text stay as they were. */
  lemma {:induction false} TypingNeverValidatesUnflagged(i: Input, vs: seq<string>)
    requires "error" !in i.classes
    decreases |vs|
    ensures TypedAll(i, vs).classes == i.classes
    ensures TypedAll(i, vs).errorText == i.errorText
    ensures vs != [] ==> TypedAll(i, vs).value == vs[|vs| - 1]
  {
    if vs != [] {
      TypingNeverValidatesUnflagged(Typed(i, vs[0]), vs[1..]);
    }
  }

  /** One refused input event on an input marked `error`: the mark stays,
      and so does the rule's message. */
  lemma TypedRefused(i: Input, v: string)
    requires "error" in i.classes && !Accepts(i.name, v)
    ensures var r := Typed(i, v);
            && r.name == i.name && "error" in r.classes && "success" !in r.classes
            && RuleFor(i.name).Some?
            && (i.errorText.Some? ==> r.errorText == Some(Shows(RuleFor(i.name).value)))
  {
    ValidatedStatus(i.(value := v));
  }

  /** An input marked `error` keeps the mark, and the rule's message, while
      every value typed into it is still refused. */
  lemma {:induction false} ErrorStaysUntilFixed(i: Input, vs: seq<string>)
    requires "error" in i.classes
    requires forall k :: 0 <= k < |vs| ==> !Accepts(i.name, vs[k])
    decreases |vs|
    ensures "error" in TypedAll(i, vs).classes
    ensures vs != [] ==> "success" !in TypedAll(i, vs).classes
    ensures vs != [] && i.errorText.Some? ==>
              TypedAll(i, vs).errorText == Some(Shows(RuleFor(i.name).value))
  {
    if vs != [] {
      TypedRefused(i, vs[0]);
      var j := Typed(i, vs[0]);
      if |vs| > 1 {
        var rest := vs[1..];
        assert forall k :: 0 <= k < |rest| ==> rest[k] == vs[k + 1];
        ErrorStaysUntilFixed(j, rest);
      }
    }
  }

  /** An input marked `error` is marked `success` by the first input event
      whose value passes. */
  lemma FixClearsError(i: Input, v: string)
    requires "error" in i.classes && Accepts(i.name, v)
    ensures "success" in Typed(i, v).classes && "error" !in Typed(i, v).classes
  {
    ValidatedStatus(i.(value := v));
  }

  /** The input as a successful send leaves it: `form.reset()` restores the
      default value and both status classes are removed. */
  function Cleared(i: Input): (r: Input)
    ensures r.value == i.defaultValue && r.name == i.name && r.errorText == i.errorText
    ensures "error" !in r.classes && "success" !in r.classes
    ensures r.classes + {"error", "success"} == i.classes + {"error", "success"}
  {
    i.(value := i.defaultValue, classes := i.classes - {"success", "error"})
  }

  /** Every input passes: with a `.submit-btn` on the page, the condition
      under which the form is sent. */
  predicate AllAccepted(xs: seq<Input>)
  {
    forall m :: 0 <= m < |xs| ==> Accepted(xs[m])
  }

  /** The full validation pass accepts every input exactly when it leaves
      no input marked `error`; `Form.Submit` then sends when the page has
      its `.submit-btn`. */
  lemma SendIffNoErrorMarks(xs: seq<Input>)
    ensures AllAccepted(xs) <==> forall m :: 0 <= m < |xs| ==> "error" !in Validated(xs[m]).classes
  {
    if !AllAccepted(xs) {
      var m :| 0 <= m < |xs| && !Accepted(xs[m]);
      ValidatedStatus(xs[m]);
    } else {
      forall m | 0 <= m < |xs|
        ensures "error" !in Validated(xs[m]).classes
      {
        ValidatedStatus(xs[m]);
      }
    }
  }

  /** Whether the first `j` inputs all pass. */
  predicate AcceptedThrough(xs: seq<Input>, j: nat)
    requires j <= |xs|
    decreases j
  {
    j == 0 || (AcceptedThrough(xs, j - 1) && Accepted(xs[j - 1]))
  }

  lemma {:induction false} AcceptedThroughAll(xs: seq<Input>, j: nat)
    requires j <= |xs|
    decreases j
    ensures AcceptedThrough(xs, j) <==> forall m :: 0 <= m < j ==> Accepted(xs[m])
  {
    if j > 0 {
      AcceptedThroughAll(xs, j - 1);
    }
  }

  /** Colour of the `.char-counter` element. */
  datatype CounterColor = ErrorColor | TextColor

  /** The counter turns to the error colour past 1800 characters. */
  function ColorFor(count: nat): (c: CounterColor)
    ensures c == ErrorColor <==> count > 1800
  {
    if count > 1800 then ErrorColor else TextColor
  }

  /** The label the submit button shows while a request is in flight. */
  const LoadingContent := "<span>Sending...</span><i class=\"bx bx-loader-alt bx-spin\"></i>"

  /** How a submit event ended. */
  datatype Outcome = Sent | Failed

  class Form {
    /** The form's `input` and `textarea` elements, in document order. */
    var inputs: seq<Input>
    /** Which of them is `#message`, if the page has one. */
    const messageIndex: Option<nat>
    /** Text of `#charCount`; None when the page has no such element. */
    var charCount: Option<string>
    /** Colour of `.char-counter`; None when the page has no such element. */
    var counterColor: Option<CounterColor>
    /** Whether the page has a `.submit-btn`, and its `innerHTML` and `disabled`. */
    const hasButton: bool
    var buttonContent: string
    var buttonDisabled: bool
    /** The button content saved when a request was sent and not yet answered. */
    var inFlight: Option<string>
    /** Whether the thank-you modal has been shown, and how many error alerts were raised. */
    var modalShown: bool
    var alerts: nat

    ghost predicate Valid()
      reads this
    {
      && (messageIndex.Some? ==> messageIndex.value < |inputs|)
      && (inFlight.Some? ==> buttonDisabled && buttonContent == LoadingContent)
    }

    constructor (inputs: seq<Input>, messageIndex: Option<nat>, charCount: Option<string>,
                 counterColor: Option<CounterColor>, hasButton: bool, buttonContent: string)
      requires messageIndex.Some? ==> messageIndex.value < |inputs|
      ensures Valid()
      ensures this.inputs == inputs && this.messageIndex == messageIndex
      ensures this.charCount == charCount && this.counterColor == counterColor
      ensures this.hasButton == hasButton && this.buttonContent == buttonContent && !buttonDisabled
      ensures inFlight == None && !modalShown && alerts == 0
    {
      this.inputs := inputs;
      this.messageIndex := messageIndex;
      this.charCount := charCount;
      this.counterColor := counterColor;
      this.hasButton := hasButton;
      this.buttonContent := buttonContent;
      buttonDisabled := false;
      inFlight := None;
      modalShown := false;
      alerts := 0;
    }

    /** `validateInput(inputs[k])`: marks the input and returns its verdict. */
    method ValidateInput(k: nat) returns (ok: bool)
      requires Valid() && k < |inputs|
      modifies this`inputs
      ensures Valid()
      ensures ok == Accepted(old(inputs[k]))
      ensures inputs == old(inputs)[k := Validated(old(inputs[k]))]
    {
      ok := Accepted(inputs[k]);
      inputs := inputs[k := Validated(inputs[k])];
    }

    /** The blur listener of input `k`. */
    method OnBlur(k: nat)
      requires Valid() && k < |inputs|
      modifies this`inputs
      ensures Valid()
      ensures inputs == old(inputs)[k := Blurred(old(inputs[k]))]
    {
      if Trim(inputs[k].value) != "" {
        var _ := ValidateInput(k);
      }
    }

    /** The counter listener of `#message`, attached only when `#charCount`
        exists: it shows the length of the new value `v` and recolours
        `.char-counter` when that element exists. */
    method CountCharacters(k: nat, v: string)
      modifies this`charCount, this`counterColor
      ensures var counted := messageIndex == Some(k) && old(charCount).Some?;
              && charCount == (if counted then Some(NatToDecimal(|v|)) else old(charCount))
              && counterColor == (if counted && old(counterColor).Some? then Some(ColorFor(|v|))
                                  else old(counterColor))
    {
      if messageIndex == Some(k) && charCount.Some? {
        var count := |v|;
        charCount := Some(NatToDecimal(count));
        if counterColor.Some? {
          counterColor := Some(ColorFor(count));
        }
      }
    }

    /** An input event on input `k` after its value became `v`: the counter
        listener runs (for `#message`), then the validation listener. */
    method OnInput(k: nat, v: string)
      requires Valid() && k < |inputs|
      modifies this`inputs, this`charCount, this`counterColor
      ensures Valid()
      ensures inputs == old(inputs)[k := Typed(old(inputs[k]), v)]
      ensures var counted := messageIndex == Some(k) && old(charCount).Some?;
              && charCount == (if counted then Some(NatToDecimal(|v|)) else old(charCount))
              && counterColor == (if counted && old(counterColor).Some? then Some(ColorFor(|v|))
                                  else old(counterColor))
    {
      CountCharacters(k, v);
      var input := inputs[k].(value := v);
      if "error" in input.classes {
        input := Validated(input);
      }
      inputs := inputs[k := input];
    }

    /** The validation loop of the submit listener: every input is
        validated, with no short cut, and the flag records whether all
        passed. */
    method ValidateAll() returns (isValid: bool)
      requires Valid()
      modifies this`inputs
      ensures Valid()
      ensures isValid == AllAccepted(old(inputs))
      ensures |inputs| == |old(inputs)|
      ensures forall m :: 0 <= m < |inputs| ==> inputs[m] == Validated(old(inputs)[m])
    {
      ghost var xs := inputs;
      isValid := true;
      var j := 0;
      while j < |inputs|
        invariant Valid()
        invariant 0 <= j <= |xs| == |inputs|
        invariant forall m :: 0 <= m < j ==> inputs[m] == Validated(xs[m])
        invariant forall m :: j <= m < |xs| ==> inputs[m] == xs[m]
        invariant isValid == AcceptedThrough(xs, j)
      {
        var ok := ValidateInput(j);
        if !ok {
          isValid := false;
        }
        j := j + 1;
      }
      AcceptedThroughAll(xs, j);
    }

    /** The submit listener up to the network request: the form is sent only
        if every input passes and the page has its submit button, and then
        the button switches to its loading state. Without the button the
        listener stops with a TypeError after validating, and nothing is
        sent. A request can be in flight only while the button is disabled,
        so no second submit reaches this point. */
    method Submit() returns (send: bool)
      requires Valid() && inFlight.None?
      modifies this`inputs, this`buttonContent, this`buttonDisabled, this`inFlight
      ensures Valid()
      ensures send == (AllAccepted(old(inputs)) && hasButton)
      ensures |inputs| == |old(inputs)|
      ensures forall m :: 0 <= m < |inputs| ==> inputs[m] == Validated(old(inputs)[m])
      ensures send ==> inFlight == Some(old(buttonContent))
      ensures !send ==> inFlight == None && buttonContent == old(buttonContent)
                        && buttonDisabled == old(buttonDisabled)
    {
      var isValid := ValidateAll();
      send := isValid && hasButton;
      if send {
        inFlight := Some(buttonContent);
        buttonContent := LoadingContent;
        buttonDisabled := true;
      }
    }

    /** The answer to the request: `responseOk` is false for a network error
        and for a response that is not ok. On success the modal is shown, the
        form is reset, every input loses both status classes and the counter
        reads "0"; on failure an alert is raised and the inputs stay as they
        are. Either way the button gets its saved content back and is
        enabled again. */
    method Complete(responseOk: bool) returns (outcome: Outcome)
      requires Valid() && inFlight.Some?
      modifies this
      ensures Valid() && inFlight == None
      ensures outcome == if responseOk then Sent else Failed
      ensures buttonContent == old(inFlight.value) && !buttonDisabled
      ensures |inputs| == |old(inputs)|
      ensures responseOk ==> forall m :: 0 <= m < |inputs| ==> inputs[m] == Cleared(old(inputs)[m])
      ensures !responseOk ==> inputs == old(inputs)
      ensures charCount == if responseOk && old(charCount).Some? then Some("0") else old(charCount)
      ensures counterColor == old(counterColor)
      ensures modalShown == (old(modalShown) || responseOk)
      ensures alerts == old(alerts) + (if responseOk then 0 else 1)
    {
      var saved := inFlight.value;
      if responseOk {
        modalShown := true;
        var cleared := [];
        var j := 0;
        while j < |inputs|
          invariant 0 <= j <= |inputs| && |cleared| == j
          invariant forall m :: 0 <= m < j ==> cleared[m] == Cleared(inputs[m])
        {
          cleared := cleared + [Cleared(inputs[j])];
          j := j + 1;
        }
        inputs := cleared;
        if charCount.Some? {
          charCount := Some("0");
        }
        outcome := Sent;
      } else {
        alerts := alerts + 1;
        outcome := Failed;
      }
      buttonContent := saved;
      buttonDisabled := false;
      inFlight := None;
    }
  }

  /** The counter's reset text is what the counter listener would show for an empty message. */
  lemma ResetCounterReadsEmpty()
    ensures NatToDecimal(0) == "0"
  {
  }
}
