/**
 * The handlers of src/pages/SignIn.jsx as effect sequences. Each handler
 * returns the trace of what it does, in order: preventing the form's
 * default, calls into the authentication backend, navigation and alerts.
 * The backend's answer (the promise fulfilled or rejected) is a parameter.
 */
module SignIn {
  import opened Wrappers
  import EmailPattern

  /** How a backend promise settles; a rejection carries error.code and error.message. */
  datatype Outcome = Fulfilled | Rejected(code: string, message: string)

  datatype Effect =
    | PreventDefault
    | SignInWithPassword(email: string, password: string)
    | SignInWithPopup
    | SendResetEmail(address: string)
    | Navigate(route: string)
    | Alert(text: string)
    | Prompt(text: string)

  const AdminRoute := "/admin"
  const BadPasswordAlert := "Invalid Email or Password"
  const BadGoogleAlert := "Invalid Email or Not Authenticated"
  const ResetPrompt := "Please enter your email"
  const BadFormatAlert := "Invalid email format. Please enter a valid email address."
  const EmailSentAlert := "Email Sent! Check your Inbox."
  const ResetErrorPrefix := "Error sending email: "

  /** Number of times e occurs in the trace. */
  function Occurrences(trace: seq<Effect>, e: Effect): (n: nat)
    ensures n <= |trace|
    ensures n == 0 <==> e !in trace
  {
    if trace == [] then 0 else (if trace[0] == e then 1 else 0) + Occurrences(trace[1..], e)
  }

  predicate Navigates(trace: seq<Effect>)
  {
    exists k :: 0 <= k < |trace| && trace[k].Navigate?
  }

  predicate Alerts(trace: seq<Effect>)
  {
    exists k :: 0 <= k < |trace| && trace[k].Alert?
  }

  predicate RequestsReset(trace: seq<Effect>)
  {
    exists k :: 0 <= k < |trace| && trace[k].SendResetEmail?
  }

  /**
   * The text the pattern is tested against: a cancelled prompt gives null,
   * which RegExp.prototype.test converts to "null". This is the conversion
   * of null; GalleryDom.JsText is the conversion of undefined, which a
   * template literal renders as "undefined".
   */
  function PromptText(answer: Option<string>): (s: string)
    ensures answer.Some? ==> s == answer.value
    ensures answer.None? ==> s == "null"
  {
    match answer
    case None => "null"
    case Some(s) => s
  }

  /**
   * userSignIn: the form's default is prevented first, then the backend is
   * asked; success navigates to /admin exactly once, failure alerts and
   * does not navigate.
   */
  method UserSignIn(email: string, password: string, outcome: Outcome) returns (trace: seq<Effect>)
    ensures |trace| >= 2 && trace[0] == PreventDefault && trace[1] == SignInWithPassword(email, password)
    ensures Occurrences(trace, Navigate(AdminRoute)) == (if outcome.Fulfilled? then 1 else 0)
    ensures Navigates(trace) <==> outcome.Fulfilled?
    ensures Alert(BadPasswordAlert) in trace <==> outcome.Rejected?
    ensures Alerts(trace) <==> outcome.Rejected?
    ensures trace == [PreventDefault, SignInWithPassword(email, password),
                      if outcome.Fulfilled? then Navigate(AdminRoute) else Alert(BadPasswordAlert)]
  {
    trace := [PreventDefault];
    trace := trace + [SignInWithPassword(email, password)];
    match outcome
    case Fulfilled =>
      trace := trace + [Navigate(AdminRoute)];
    case Rejected(_, _) =>
      trace := trace + [Alert(BadPasswordAlert)];
  }

  /** userSignInGoogle: the popup sign-in; success navigates to /admin once, failure alerts and does not navigate. */
  method UserSignInGoogle(outcome: Outcome) returns (trace: seq<Effect>)
    ensures |trace| >= 1 && trace[0] == SignInWithPopup
    ensures Occurrences(trace, Navigate(AdminRoute)) == (if outcome.Fulfilled? then 1 else 0)
    ensures Navigates(trace) <==> outcome.Fulfilled?
    ensures Alert(BadGoogleAlert) in trace <==> outcome.Rejected?
    ensures Alerts(trace) <==> outcome.Rejected?
    ensures trace == [SignInWithPopup,
                      if outcome.Fulfilled? then Navigate(AdminRoute) else Alert(BadGoogleAlert)]
  {
    trace := [SignInWithPopup];
    match outcome
    case Fulfilled =>
      trace := trace + [Navigate(AdminRoute)];
    case Rejected(_, _) =>
      trace := trace + [Alert(BadGoogleAlert)];
  }

  /**
   * handlePasswordReset with the prompt's answer (None when cancelled): a
   * reset email is requested, once and for the text entered, only when that
   * text matches the pattern; otherwise the handler alerts and returns
   * without calling the backend. It never navigates.
   */
  method HandlePasswordReset(answer: Option<string>, outcome: Outcome) returns (trace: seq<Effect>)
    ensures |trace| >= 2 && trace[0] == Prompt(ResetPrompt)
    ensures RequestsReset(trace) <==> EmailPattern.Test(PromptText(answer))
    ensures forall k :: 0 <= k < |trace| && trace[k].SendResetEmail? ==>
      answer.Some? && trace[k].address == answer.value
    ensures Occurrences(trace, SendResetEmail(PromptText(answer))) <= 1
    ensures !EmailPattern.Test(PromptText(answer)) ==> trace == [Prompt(ResetPrompt), Alert(BadFormatAlert)]
    ensures EmailPattern.Test(PromptText(answer)) ==>
      trace[|trace| - 1] == Alert(if outcome.Fulfilled? then EmailSentAlert else ResetErrorPrefix + outcome.message)
    ensures EmailPattern.Test(PromptText(answer)) ==>
      answer.Some? &&
      trace == [Prompt(ResetPrompt), SendResetEmail(answer.value),
                Alert(if outcome.Fulfilled? then EmailSentAlert else ResetErrorPrefix + outcome.message)]
    ensures !Navigates(trace)
  {
    trace := [Prompt(ResetPrompt)];
    var email := PromptText(answer);
    if !EmailPattern.Test(email) {
      trace := trace + [Alert(BadFormatAlert)];
      assert !trace[0].SendResetEmail? && !trace[1].SendResetEmail?;
      return;
    }
    if answer.None? {
      EmailPattern.CancelledPromptRejected();
      assert false;
    }
    trace := trace + [SendResetEmail(email)];
    match outcome {
      case Fulfilled =>
        trace := trace + [Alert(EmailSentAlert)];
      case Rejected(_, message) =>
        trace := trace + [Alert(ResetErrorPrefix + message)];
    }
    assert trace[1].SendResetEmail?;
  }
}
