/**
 * The submission page (app/page.tsx): the typewriter placeholder cycling
 * through example texts, the input and focus handlers, and the submit flow
 * with its request, response handling and success reset. Each timer callback
 * and each run of the placeholder effect is one method call; `Math.random()`
 * draws and the viewport size are parameters, and the network round trip is
 * split into `BeginSubmit` and `HandleResponse`.
 */
module Page {
  import opened Wrappers
  import opened Strings
  import opened Constants
  import Moderation
  import MessageContainer
  import MessagesRoute

  const ExampleTexts: seq<string> := ["За каждый день", "За родителей", "За Божью благодать"]
  const SubmitFailed: string := "Ошибка при отправке сообщения"

  /** The callback a pending placeholder timer will run. */
  datatype TimerAction = TypeNext | StartDeleting | DeleteLast

  /** The JSON body the page posts; positions are rounded to integers. */
  datatype SubmitRequest = SubmitRequest(text: string, positionX: int, positionY: int, duration: real)

  /** How `fetch` ended: a response with its `ok` flag and the `error` field
      of its JSON body, or an exception with its message. */
  datatype FetchOutcome =
    | Responded(ok: bool, error: Option<string>)
    | Thrown(message: string)

  /** `Math.round`: halves rounded up. */
  function Round(x: real): int {
    (x + 0.5).Floor
  }

  /** `Math.round` gives the nearest integer, at most half a unit away. */
  lemma RoundNearest(x: real)
    ensures x - 0.5 < Round(x) as real <= x + 0.5
  {
  }

  /** The page's own reading-time formula, on the untrimmed input. */
  function SubmittedDuration(input: string): (d: real)
    ensures 2.0 <= d <= 8.0
  {
    Max(2.0, Min(2.0 + |input| as real / 50.0, 8.0))
  }

  /** The page and the display compute the same duration for the same text. */
  lemma SubmittedDurationAgrees(input: string)
    ensures SubmittedDuration(input) == MessageContainer.CalculateDuration(input)
  {
  }

  /** The request for `input` in a `width` x `height` viewport with draws `rx`, `ry`. */
  function PageRequest(input: string, width: real, height: real, rx: real, ry: real): (q: SubmitRequest)
    ensures q.text == Trim(input)
    ensures q.duration == MessageContainer.CalculateDuration(input)
    ensures 2.0 <= q.duration <= 8.0
  {
    SubmittedDurationAgrees(input);
    SubmitRequest(Trim(input),
                  Round(MessageContainer.Scale(rx, width - 300.0) + 50.0),
                  Round(MessageContainer.Scale(ry, height - 200.0) + 50.0),
                  SubmittedDuration(input))
  }

  /** The duration is computed from the input before trimming, so it can
      differ from the display's duration for the text actually sent: "a "
      is sent as "a" with 2.04 s, where "a" alone gives 2.02 s. */
  lemma DurationFromUntrimmedInput(width: real, height: real, rx: real, ry: real)
    ensures var q := PageRequest("a ", width, height, rx, ry);
      && q.text == "a"
      && q.duration == 2.04
      && MessageContainer.CalculateDuration(q.text) == 2.02
  {
    var input := "a ";
    assert SpaceRunEnd(input, 0) == 0;
    assert SpaceRunStart(input, 0, 2) == 1 by {
      assert IsSpace(input[1]) && !IsSpace(input[0]);
    }
    assert Trim(input) == input[0..1] == "a";
  }

  /** With draws in [0, 1) and a viewport at least 300 x 200, the posted
      position lies in [50, width - 249.5] x [50, height - 149.5]. */
  lemma RequestPositionInViewport(input: string, width: real, height: real, rx: real, ry: real)
    requires 0.0 <= rx < 1.0 && 0.0 <= ry < 1.0
    requires width > 300.0 && height > 200.0
    ensures var q := PageRequest(input, width, height, rx, ry);
      && 50 <= q.positionX && q.positionX as real <= width - 249.5
      && 50 <= q.positionY && q.positionY as real <= height - 149.5
  {
    MessageContainer.ScaleBelow(rx, width - 300.0);
    MessageContainer.ScaleBelow(ry, height - 200.0);
    var x := MessageContainer.Scale(rx, width - 300.0) + 50.0;
    var y := MessageContainer.Scale(ry, height - 200.0) + 50.0;
    RoundBetween(x, 50, width - 250.0);
    RoundBetween(y, 50, height - 150.0);
  }

  /** A value in [lo, hi) with an integer `lo` rounds into [lo, hi + 0.5]. */
  lemma RoundBetween(x: real, lo: int, hi: real)
    requires lo as real <= x < hi
    ensures lo <= Round(x) && Round(x) as real <= hi + 0.5
  {
    RoundNearest(x);
    var n := Round(x);
    assert (n + 1) as real > lo as real;
  }

  /** The message shown after a failed submission: the server's `error`
      field when non-empty, else the generic text; a thrown error's message. */
  function FailureMessage(outcome: FetchOutcome): (m: string)
    requires !(outcome.Responded? && outcome.ok)
    ensures outcome.Responded? ==> m != ""
    ensures outcome.Responded? && outcome.error.Some? && outcome.error.value != "" ==> m == outcome.error.value
    ensures outcome.Responded? && !(outcome.error.Some? && outcome.error.value != "") ==> m == SubmitFailed
    ensures outcome.Thrown? ==> m == outcome.message
  {
    match outcome
    case Responded(_, error) => if error.Some? && error.value != "" then error.value else SubmitFailed
    case Thrown(message) => message
  }

  /** The submit guard, `!inputValue.trim() || isSubmitting || isSuccess`. */
  predicate SubmitBlocked(input: string, isSubmitting: bool, isSuccess: bool) {
    Trim(input) == [] || isSubmitting || isSuccess
  }

  /** The button's `disabled` attribute, `isSubmitting || !inputValue.trim() || isSuccess`. */
  predicate ButtonDisabled(input: string, isSubmitting: bool, isSuccess: bool) {
    isSubmitting || Trim(input) == [] || isSuccess
  }

  /** The button is disabled exactly when a submission would be ignored:
      while the trimmed input is empty, during a submission and during the
      success display. */
  lemma DisabledIffBlocked(input: string, isSubmitting: bool, isSuccess: bool)
    ensures ButtonDisabled(input, isSubmitting, isSuccess) == SubmitBlocked(input, isSubmitting, isSuccess)
    ensures ButtonDisabled(input, isSubmitting, isSuccess) <==> Blank(input) || isSubmitting || isSuccess
  {
  }

  /** What a submit attempt sends: nothing while blocked, else the page's request. */
  function Submission(input: string, isSubmitting: bool, isSuccess: bool,
                      width: real, height: real, rx: real, ry: real): (r: Option<SubmitRequest>)
    ensures r.None? <==> SubmitBlocked(input, isSubmitting, isSuccess)
    ensures r.Some? ==> r.value == PageRequest(input, width, height, rx, ry) && r.value.text != []
  {
    if SubmitBlocked(input, isSubmitting, isSuccess) then None
    else Some(PageRequest(input, width, height, rx, ry))
  }

  /** The body the API route receives for a page request. */
  function ToPostBody(q: SubmitRequest): (b: MessagesRoute.PostBody)
    ensures b.positionX.Num? && b.positionY.Num?
  {
    MessagesRoute.PostBody(MessagesRoute.Str(q.text),
                           MessagesRoute.Num(q.positionX as real),
                           MessagesRoute.Num(q.positionY as real),
                           MessagesRoute.Num(q.duration))
  }

  /** How the page sees the API's response. */
  function OutcomeOf(response: MessagesRoute.Response): (o: FetchOutcome)
    ensures o.Responded?
    ensures o.ok <==> 200 <= response.status < 300
  {
    Responded(200 <= response.status < 300,
              if response.body.ErrorBody? then Some(response.body.error) else None)
  }

  /** A page request for a non-blank input carries a trimmed, non-empty text
      and a non-zero duration. */
  lemma PageRequestTrimmed(input: string, width: real, height: real, rx: real, ry: real)
    requires !Blank(input)
    ensures var q := PageRequest(input, width, height, rx, ry);
      && q.text != [] && !IsSpace(q.text[0]) && !IsSpace(q.text[|q.text| - 1])
      && q.duration != 0.0
  {
  }

  /** A request the page sends clears the route's presence checks, so the
      server's decision is exactly `validateMessage` on the trimmed text:
      inserted unchanged, with the page's duration, or refused with its reason. */
  lemma PageRequestDecision(input: string, width: real, height: real, rx: real, ry: real)
    requires !Blank(input)
    ensures var q := PageRequest(input, width, height, rx, ry);
      var v := Moderation.ValidateMessage(q.text);
      MessagesRoute.DecidePost(ToPostBody(q)) ==
      if v.Valid? then MessagesRoute.Insert(q.text, q.positionX as real, q.positionY as real, MessagesRoute.Num(q.duration))
      else MessagesRoute.Reject(v.reason)
  {
    var q := PageRequest(input, width, height, rx, ry);
    PageRequestTrimmed(input, width, height, rx, ry);
    MessagesRoute.TrimmedBodyDecides(q.text, q.positionX as real, q.positionY as real, q.duration);
  }

  /** A refused message comes back as a 400 whose reason the page displays. */
  lemma RejectionReasonShown(input: string, width: real, height: real, rx: real, ry: real,
                             addMessage: (string, real, real, MessagesRoute.JsValue) -> Option<MessagesRoute.Store.Message>)
    requires !Blank(input)
    requires Moderation.ValidateMessage(Trim(input)).Invalid?
    ensures var response := MessagesRoute.PostResponse(Some(ToPostBody(PageRequest(input, width, height, rx, ry))), addMessage);
      && response.status == 400
      && FailureMessage(OutcomeOf(response)) == Moderation.ValidateMessage(Trim(input)).reason
  {
    PageRequestDecision(input, width, height, rx, ry);
    Moderation.ValidateMessageReasonNonEmpty(Trim(input));
  }

  /** Every example the placeholder suggests would be refused as containing
      a forbidden word: each starts with the word "За". */
  lemma ExampleTextsRejected(i: nat)
    requires i < |ExampleTexts|
    ensures Moderation.ValidateMessage(ExampleTexts[i]) == Moderation.Invalid(Moderation.ForbiddenReason)
  {
    var t := ExampleTexts[i];
    assert t[0] == 'З' && t[1] == 'а' && t[2] == ' ';
    Moderation.StandaloneZaRejected(t, 0);
  }

  /** The state of the `Home` component. */
  class Home {
    var currentExample: nat
    var displayedText: string
    var inputValue: string
    var isFocused: bool
    var isTyping: bool
    var isDeleting: bool
    var isSubmitting: bool
    var isSuccess: bool
    var errorMessage: Option<string>
    /** The placeholder timer scheduled by the last effect run, if any. */
    var pending: Option<TimerAction>

    /** The example index is in range, the placeholder is a prefix of the
        current example, and a submission is never in flight during the
        success display. */
    ghost predicate Valid()
      reads this
    {
      && currentExample < |ExampleTexts|
      && displayedText <= ExampleTexts[currentExample]
      && !(isSubmitting && isSuccess)
    }

    /** The placeholder animates only while unfocused with an empty input. */
    predicate Idle()
      reads this
    {
      !isFocused && inputValue == []
    }

    constructor ()
      ensures Valid()
      ensures currentExample == 0 && displayedText == [] && inputValue == []
      ensures !isFocused && !isTyping && !isDeleting && !isSubmitting && !isSuccess
      ensures errorMessage == None && pending == None
    {
      currentExample := 0;
      displayedText := [];
      inputValue := [];
      isFocused := false;
      isTyping := false;
      isDeleting := false;
      isSubmitting := false;
      isSuccess := false;
      errorMessage := None;
      pending := None;
    }

    /** One run of the placeholder effect, after clearing the timer of the
        previous run: schedule a typing step, a pause before deleting or a
        deleting step, or move to the next example; when not idle, clear
        the placeholder. */
    method RunEffect()
      requires Valid()
      modifies this
      ensures Valid()
      ensures inputValue == old(inputValue) && isFocused == old(isFocused)
      ensures isSubmitting == old(isSubmitting) && isSuccess == old(isSuccess) && errorMessage == old(errorMessage)
      ensures old(Idle()) && !old(isDeleting) && |old(displayedText)| < |ExampleTexts[old(currentExample)]| ==>
        && isTyping && pending == Some(TypeNext) && !isDeleting
        && displayedText == old(displayedText) && currentExample == old(currentExample)
      ensures old(Idle()) && !old(isDeleting) && |old(displayedText)| == |ExampleTexts[old(currentExample)]| ==>
        && !isTyping && pending == Some(StartDeleting) && !isDeleting
        && displayedText == old(displayedText) && currentExample == old(currentExample)
      ensures old(Idle()) && old(isDeleting) && old(displayedText) != [] ==>
        && isTyping == old(isTyping) && pending == Some(DeleteLast) && isDeleting
        && displayedText == old(displayedText) && currentExample == old(currentExample)
      ensures old(Idle()) && old(isDeleting) && old(displayedText) == [] ==>
        && isTyping == old(isTyping) && pending == None && !isDeleting
        && displayedText == [] && currentExample == (old(currentExample) + 1) % |ExampleTexts|
      ensures !old(Idle()) ==>
        && !isTyping && pending == None && !isDeleting
        && displayedText == [] && currentExample == old(currentExample)
    {
      pending := None;
      if Idle() {
        var fullText := ExampleTexts[currentExample];
        if !isDeleting && |displayedText| < |fullText| {
          isTyping := true;
          pending := Some(TypeNext);
        } else if !isDeleting && |displayedText| == |fullText| {
          isTyping := false;
          pending := Some(StartDeleting);
        } else if isDeleting && |displayedText| > 0 {
          pending := Some(DeleteLast);
        } else if isDeleting && |displayedText| == 0 {
          isDeleting := false;
          currentExample := (currentExample + 1) % |ExampleTexts|;
        }
      } else {
        displayedText := [];
        isTyping := false;
        isDeleting := false;
      }
    }

    /** The pending placeholder timer fires: the next prefix of the example
        (one character more), the switch to deleting, or one character less. */
    method FireTimer()
      requires Valid() && pending.Some?
      modifies this
      ensures Valid()
      ensures pending == None
      ensures currentExample == old(currentExample) && isTyping == old(isTyping)
      ensures inputValue == old(inputValue) && isFocused == old(isFocused)
      ensures isSubmitting == old(isSubmitting) && isSuccess == old(isSuccess) && errorMessage == old(errorMessage)
      ensures old(pending) == Some(TypeNext) ==>
        && isDeleting == old(isDeleting)
        && (|old(displayedText)| < |ExampleTexts[currentExample]| ==>
              displayedText == ExampleTexts[currentExample][..|old(displayedText)| + 1])
        && (|old(displayedText)| == |ExampleTexts[currentExample]| ==> displayedText == old(displayedText))
      ensures old(pending) == Some(StartDeleting) ==>
        isDeleting && displayedText == old(displayedText)
      ensures old(pending) == Some(DeleteLast) ==>
        && isDeleting == old(isDeleting)
        && (old(displayedText) != [] ==> displayedText == old(displayedText)[..|old(displayedText)| - 1])
        && (old(displayedText) == [] ==> displayedText == [])
    {
      var action := pending.value;
      pending := None;
      match action
      case TypeNext =>
        var fullText := ExampleTexts[currentExample];
        var nextLength := |displayedText| + 1;
        displayedText := if nextLength <= |fullText| then fullText[..nextLength] else fullText;
      case StartDeleting =>
        isDeleting := true;
      case DeleteLast =>
        if displayedText != [] {
          displayedText := displayedText[..|displayedText| - 1];
        }
    }

    method Focus()
      modifies this
      ensures isFocused
      ensures currentExample == old(currentExample) && displayedText == old(displayedText)
      ensures inputValue == old(inputValue) && isTyping == old(isTyping) && isDeleting == old(isDeleting)
      ensures isSubmitting == old(isSubmitting) && isSuccess == old(isSuccess)
      ensures errorMessage == old(errorMessage) && pending == old(pending)
    {
      isFocused := true;
    }

    method Blur()
      modifies this
      ensures !isFocused
      ensures currentExample == old(currentExample) && displayedText == old(displayedText)
      ensures inputValue == old(inputValue) && isTyping == old(isTyping) && isDeleting == old(isDeleting)
      ensures isSubmitting == old(isSubmitting) && isSuccess == old(isSuccess)
      ensures errorMessage == old(errorMessage) && pending == old(pending)
    {
      isFocused := false;
    }

    /** `onChange`: take the new value and hide a displayed error. */
    method Change(value: string)
      modifies this
      ensures inputValue == value
      ensures !(errorMessage.Some? && errorMessage.value != "")
      ensures old(errorMessage).Some? && old(errorMessage).value != "" ==> errorMessage == None
      ensures !(old(errorMessage).Some? && old(errorMessage).value != "") ==> errorMessage == old(errorMessage)
      ensures currentExample == old(currentExample) && displayedText == old(displayedText)
      ensures isFocused == old(isFocused) && isTyping == old(isTyping) && isDeleting == old(isDeleting)
      ensures isSubmitting == old(isSubmitting) && isSuccess == old(isSuccess) && pending == old(pending)
    {
      inputValue := value;
      if errorMessage.Some? && errorMessage.value != "" {
        errorMessage := None;
      }
    }

    /** `handleSubmit` up to the `fetch`: nothing happens while blocked;
        otherwise the submission starts and the request is returned. */
    method BeginSubmit(width: real, height: real, rx: real, ry: real) returns (request: Option<SubmitRequest>)
      requires Valid()
      modifies this
      ensures Valid()
      ensures request == Submission(old(inputValue), old(isSubmitting), old(isSuccess), width, height, rx, ry)
      ensures request.Some? ==> isSubmitting && !isSuccess && errorMessage == None
      ensures request.None? ==>
        isSubmitting == old(isSubmitting) && isSuccess == old(isSuccess) && errorMessage == old(errorMessage)
      ensures currentExample == old(currentExample) && displayedText == old(displayedText)
      ensures inputValue == old(inputValue) && isFocused == old(isFocused)
      ensures isTyping == old(isTyping) && isDeleting == old(isDeleting) && pending == old(pending)
    {
      request := Submission(inputValue, isSubmitting, isSuccess, width, height, rx, ry);
      if request.Some? {
        isSubmitting, isSuccess, errorMessage := true, false, None;
      }
    }

    /** The rest of `handleSubmit`: success shows the success state; any
        failure ends the submission and shows the failure message. */
    method HandleResponse(outcome: FetchOutcome)
      requires Valid() && isSubmitting
      modifies this
      ensures Valid()
      ensures !isSubmitting
      ensures outcome.Responded? && outcome.ok ==> isSuccess && errorMessage == None
      ensures !(outcome.Responded? && outcome.ok) ==>
        !isSuccess && errorMessage == Some(FailureMessage(outcome))
      ensures currentExample == old(currentExample) && displayedText == old(displayedText)
      ensures inputValue == old(inputValue) && isFocused == old(isFocused)
      ensures isTyping == old(isTyping) && isDeleting == old(isDeleting) && pending == old(pending)
    {
      if outcome.Responded? && outcome.ok {
        isSubmitting := false;
        isSuccess := true;
        errorMessage := None;
      } else {
        isSubmitting := false;
        errorMessage := Some(FailureMessage(outcome));
      }
    }

    /** The timer two seconds after a success: leave the success state and
        empty the input. */
    method SuccessTimeout()
      requires Valid() && isSuccess
      modifies this
      ensures Valid()
      ensures !isSuccess && inputValue == []
      ensures isSubmitting == old(isSubmitting) && errorMessage == old(errorMessage)
      ensures currentExample == old(currentExample) && displayedText == old(displayedText)
      ensures isFocused == old(isFocused) && isTyping == old(isTyping)
      ensures isDeleting == old(isDeleting) && pending == old(pending)
    {
      isSuccess := false;
      inputValue := [];
    }
  }
}
