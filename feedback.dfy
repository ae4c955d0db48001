/**
 * The feedback widget of src/components/FeedbackButton.jsx: three pieces of
 * component state (`isOpen`, `message`, `submitted`) changed by the open
 * click, typing into the text area, `handleSubmit` and `handleClose`, and
 * the screen each state renders.
 *
 * Each handler is reachable only through a control the current screen
 * shows, so each method requires that screen; under that discipline the
 * widget is always in one of three states (closed and empty, open and
 * editing, open and thanked), which `Valid` states.
 */
module Feedback {

  const OpenCaption: string := "Give Feedback"
  const FieldLabel: string := "Your feedback:"
  const ThanksText: string := "Thank you for your feedback!"

  /** What the component renders. */
  datatype Screen =
    | Launcher            // the "Give Feedback" button
    | Editor(text: string) // the form, its text area holding `text`
    | Thanks               // the confirmation with its Close button

  /** The screen for a state: the confirmation wins over the form, the form over the button. */
  function Render(isOpen: bool, submitted: bool, message: string): (v: Screen)
    ensures v == Thanks <==> submitted
    ensures v.Editor? <==> isOpen && !submitted
    ensures v.Editor? ==> v.text == message
    ensures v == Launcher <==> !isOpen && !submitted
  {
    if submitted then Thanks else if isOpen then Editor(message) else Launcher
  }

  /** The texts a user can find on a screen: captions, the field label and button names. */
  function Texts(v: Screen): (ts: seq<string>)
    ensures OpenCaption in ts <==> v == Launcher
    ensures FieldLabel in ts <==> v.Editor?
    ensures ThanksText in ts <==> v == Thanks
  {
    match v
    case Launcher => [OpenCaption]
    case Editor(_) => [FieldLabel, "Submit", "Cancel"]
    case Thanks => [ThanksText, "Close"]
  }

  class FeedbackButton {
    var isOpen: bool
    var message: string
    var submitted: bool

    /** The three reachable states: closed and empty, open and editing, open and thanked with an empty message. */
    predicate Valid()
      reads this
    {
      (!isOpen ==> !submitted && message == "") && (submitted ==> message == "")
    }

    /** The state a fresh component starts in (`useState(false)`, `useState('')`, `useState(false)`). */
    predicate Initial()
      reads this
    {
      !isOpen && !submitted && message == ""
    }

    /** What the component currently renders. */
    function View(): (v: Screen)
      reads this
      ensures Valid() ==> (v == Launcher <==> Initial())
    {
      Render(isOpen, submitted, message)
    }

    constructor ()
      ensures Initial() && Valid()
      ensures View() == Launcher
    {
      isOpen := false;
      message := "";
      submitted := false;
    }

    /** The click on "Give Feedback": only `isOpen` changes. */
    method Open()
      requires Valid() && View() == Launcher
      modifies this
      ensures isOpen && message == old(message) && submitted == old(submitted)
      ensures Valid() && View() == Editor("")
    {
      isOpen := true;
    }

    /** A change of the text area: the message becomes its new value. */
    method Type(text: string)
      requires Valid() && View().Editor?
      modifies this
      ensures message == text && isOpen == old(isOpen) && submitted == old(submitted)
      ensures Valid() && View() == Editor(text)
    {
      message := text;
    }

    /** `handleSubmit`: marks the feedback submitted and clears the message, leaving `isOpen` as it was. */
    method Submit()
      requires Valid() && View().Editor?
      modifies this
      ensures submitted && message == "" && isOpen == old(isOpen)
      ensures Valid() && View() == Thanks
    {
      submitted := true;
      message := "";
    }

    /** `handleClose`, behind both Cancel and Close: every field back to its initial value, from any state. */
    method Close()
      modifies this
      ensures Initial() && Valid() && View() == Launcher
    {
      isOpen := false;
      submitted := false;
      message := "";
    }
  }

  /** A fresh widget shows the "Give Feedback" button. */
  method RendersButton() returns (ts: seq<string>)
    ensures OpenCaption in ts
  {
    var w := new FeedbackButton();
    ts := Texts(w.View());
  }

  /** Clicking it shows the form with its label, Submit and Cancel. */
  method ClickOpensForm() returns (ts: seq<string>)
    ensures FieldLabel in ts && "Submit" in ts && "Cancel" in ts
    ensures OpenCaption !in ts
  {
    var w := new FeedbackButton();
    w.Open();
    ts := Texts(w.View());
  }

  /** Opening, typing and submitting shows the thanks. */
  method SubmitShowsThanks(text: string) returns (ts: seq<string>)
    ensures ThanksText in ts && FieldLabel !in ts
  {
    var w := new FeedbackButton();
    w.Open();
    w.Type(text);
    w.Submit();
    ts := Texts(w.View());
  }

  /** Cancel brings the button back. */
  method CancelCloses() returns (ts: seq<string>)
    ensures OpenCaption in ts && FieldLabel !in ts
  {
    var w := new FeedbackButton();
    w.Open();
    w.Close();
    ts := Texts(w.View());
  }

  /** Open, type, submit, close: exactly the initial state again. */
  method RoundTrip(text: string) returns (isOpen: bool, submitted: bool, message: string, ts: seq<string>)
    ensures !isOpen && !submitted && message == ""
    ensures OpenCaption in ts
  {
    var w := new FeedbackButton();
    w.Open();
    w.Type(text);
    w.Submit();
    w.Close();
    isOpen, submitted, message := w.isOpen, w.submitted, w.message;
    ts := Texts(w.View());
  }
}
