# AI Layout Builder spinner: a verified model

The AI Layout Builder module ships a Drupal behaviour, `aiLayoutBuilderSpinner`, for the node-editing
form. It watches two buttons, `#edit-submit` and `#edit-layout-builder-save-and-edit-layout`. After
a mousedown on either of them, the form's next submission is intercepted and a full-screen overlay
is shown. After a fixed delay, the behaviour appends, when the last pressed target button has a
non-empty name attribute, a hidden input carrying that name and the button's value, then submits
the form natively. The processing flag it sets is never cleared, so neither that submission nor
any later one is ever intercepted.

This project models that behaviour as an event-driven state machine over one form.

- `SpinnerModel` (spinner_model.dfy) holds the entities:
  - `Button` is a control with an id, a name and a value.
  - `Field` is an appended hidden input.
  - `State` holds the attached and processing flags, the target buttons carrying the mousedown listener, the recorded `clicked` button, the overlay's visibility, the pending timer, the hidden inputs appended so far and the number of native `form.submit()` calls.
  - Two counters are bookkeeping for the proofs: `listenerPairs` and `timersScheduled`. The class keeps them as ghost fields.

  The module also holds one pure step per event (`AttachStep`, `MouseDownStep`, `SubmitStep`, `FireTimerStep`), the invariant `Inv`, traces (`Run`, `Interceptions`) and the lemmas.
- `SpinnerBehavior` (spinner_form.dfy) is the behaviour as the source runs it. The class `NodeFormSpinner` has one field per piece of state and one method per event: `Attach`, `MouseDown`, `Submit` and `FireTimer`. Each method updates the fields in place. It is proved to keep `Valid()` and to perform exactly the corresponding step on `Snapshot()`.

Events reach a handler only when the handler exists. Before an attach pass finds the form, no
listener is registered, so mousedown and submit events have no effect. A mousedown affects only a
target button found at attach time. The timer callback runs only when a timer is pending.

The native `form.submit()` is treated as terminal. Section 4.10.21.3 of the HTML Living Standard
says it dispatches no submit event. `ResubmissionPassesThrough` shows that a submit event dispatched
for it anyway would pass through.

Three points where the code decides:

- The mousedown handler stores a reference to the pressed button (js/spinner.js:41, 44). The
  timer callback reads that reference, and the button's name and value, only when it fires
  (js/spinner.js:72-75). A mousedown on the other target button during the delay overwrites the
  reference, so it changes the name/value pair that is appended (`ButtonReadWhenTimerFires`).
- The comment at js/spinner.js:50-51 says the guard checks that the submission was initiated by
  one of the target buttons. The guard at js/spinner.js:52 tests only that some target button has
  had a mousedown, and the reference is never cleared. After a mousedown on `#edit-submit`, a
  submission from another control is intercepted. That control can be a button without the
  listener, such as Preview, or an Enter key press. The form is then resubmitted with the target
  button's name and value instead of the real submitter's (`StaleButtonIntercepts`). The submit
  event in this model carries no submitter, as the guard never looks at one.
- The processing flag also lets a user's submit during the delay pass through, for example an
  Enter key press in a text field. The browser then submits the form while the resubmission is
  still pending, and the timer submits it a second time later, unless the page has already
  unloaded by then (`SubmitDuringDelayPassesThrough`).
  This is what the code does. Nothing in the source says whether it is intended, so it is recorded
  here and not corrected.

## Model

| member | source | states |
|---|---|---|
| SpinnerModel.HiddenFieldFor | js/spinner.js:72-77 | at most one hidden input; one exactly when the recorded button has a non-empty name, and then it carries that button's name and value attribute |
| SpinnerModel.AttachStep | js/spinner.js:21-90 | the attach handler: keeps the invariant; sets the attached flag exactly when it was set or the pass found the form; an attach pass whose context has no node form, or any pass once attached, leaves the state unchanged; otherwise it hides the overlay, clears the recorded button, registers one more listener pair and the targets are exactly the form's controls with the two ids |
| SpinnerModel.MouseDownStep | js/spinner.js:42-45 | the mousedown handler: keeps the invariant; a target button becomes the recorded button, overwriting any earlier one without a guard; a control without the listener changes nothing; no field but the recorded button ever changes |
| SpinnerModel.Intercepts | js/spinner.js:52 | the submit guard; in a reachable state it implies a recorded target button and that no timer, native submit or hidden input exists yet |
| SpinnerModel.SubmitStep | js/spinner.js:52-66 | the submit handler: keeps the invariant; when processing is set, no button is recorded (so the default is not prevented) or the form is not attached, the state is unchanged: overlay, timer and processing flag untouched; when the guard passes, processing, overlay and a pending timer are set and one timer more is scheduled; nothing else changes |
| SpinnerModel.FireTimerStep | js/spinner.js:66-82 | the timer callback: keeps the invariant; with no pending timer nothing changes; otherwise the timer is consumed, the hidden input for the recorded button is appended to a form that had none and native submit is called once; nothing else changes |
| SpinnerModel.InitialIsValid | js/spinner.js:24-30 | a freshly loaded form (no data flags, no recorded button) satisfies the invariant and has no hidden input and no native submit |
| SpinnerModel.FirstAttach | js/spinner.js:24-89 | the first attach pass that finds the form sets the attached flag, hides the overlay and registers one listener pair; the targets are exactly the form's controls with the two button ids, possibly none; nothing is recorded yet |
| SpinnerModel.AttachIdempotent | js/spinner.js:21-90 | once an attach pass has found the form, any further attach pass leaves the state unchanged |
| SpinnerModel.RepeatedAttach | js/spinner.js:23-89 | n >= 1 identical attach passes act as one, leaving exactly one listener pair when the form was found |
| SpinnerModel.SubmitIntercepts | js/spinner.js:52-66 | the first submit with a recorded button prevents the default action, sets processing, shows the overlay and schedules exactly one timer, with no hidden input and no native submit yet |
| SpinnerModel.FireTimerResubmits | js/spinner.js:66-82 | no hidden input exists before the timer fires; it appends exactly one input, with the recorded button's name and value, if and only if that button has a name, and calls native submit exactly once |
| SpinnerModel.ResubmissionPassesThrough | js/spinner.js:79-81 | after the timer has fired, a submit event would not be intercepted and would change nothing |
| SpinnerModel.SubmitDuringDelayPassesThrough | js/spinner.js:52-82 | a submit while the timer is pending is not intercepted and changes nothing, so the pending resubmission still follows |
| SpinnerModel.ButtonReadWhenTimerFires | js/spinner.js:72-76 | a mousedown on a target button during the delay decides the appended name/value pair; native submit is still called once |
| SpinnerModel.StaleButtonIntercepts | js/spinner.js:50-76 | after a mousedown on a target button, a submit following a mousedown on a control without the listener is still intercepted, once, and the resubmission carries the target button's name and value |
| SpinnerModel.RunPreservesInv | js/spinner.js:21-90 | the invariant holds after any sequence of attach, mousedown, submit and timer events |
| SpinnerModel.InterceptionsScheduleTimers | js/spinner.js:52-66 | over any trace, the timers scheduled grow by exactly the number of submits whose default was prevented |
| SpinnerModel.AtMostOneResubmission | js/spinner.js:52-81 | from a fresh form, over any trace: at most one interception, at most one timer, at most one native submit, at most one hidden input |
| SpinnerModel.ProcessingSticks | js/spinner.js:52-58 | once processing is set it stays set, no later submit is intercepted and no further timer is scheduled |
| SpinnerModel.NoFormNoEffect | js/spinner.js:21-24 | until an attach pass finds the form, no event changes anything or is intercepted |
| SpinnerModel.NoTargetsNoEffect | js/spinner.js:33-52 | if the attached form has no target button, nothing can be recorded, every submit passes through and no event changes the state |
| SpinnerBehavior.NodeFormSpinner.constructor | js/spinner.js:24-30 | a new form object is in the initial state and valid |
| SpinnerBehavior.NodeFormSpinner.Attach | js/spinner.js:21-90 | performs the attach step; with no form, or when already attached, nothing changes; otherwise it hides the overlay, finds the targets, registers one listener pair and sets the attached flag |
| SpinnerBehavior.NodeFormSpinner.MouseDown | js/spinner.js:42-45 | performs the mousedown step: a target button becomes the recorded button, unguarded; no other field changes |
| SpinnerBehavior.NodeFormSpinner.Submit | js/spinner.js:47-86 | returns whether the default was prevented: exactly when attached, a button is recorded and processing is unset; then processing, overlay and one pending timer are set, otherwise nothing changes |
| SpinnerBehavior.NodeFormSpinner.FireTimer | js/spinner.js:66-82 | performs the timer step: with a pending timer, appends the hidden input for the recorded button as read now, to a form that had none, and submits natively once |

## Left out

- The `console.log` tracing is not modelled because it has no effect on behaviour.
- jQuery is reduced to plain values. Element lookup becomes the `form` argument of `Attach`, the `.data()` flags become boolean fields, and `.hide()`/`.css('display', 'flex')` become the `overlayVisible` field.
- The 3000 ms wall-clock delay is modelled only as the constant `ResubmitDelayMs`. The timer is a pending flag and its expiry an explicit event, so "no earlier than 3000 ms" is not stated.
- The Drupal behaviour lifecycle that decides when `attach` runs is not modelled; it belongs to the host framework. The `settings` argument is not modelled because the code never reads it.
- What the server does with a submission is not modelled. The navigation the browser performs after an unprevented submit event is not modelled either. Both are external I/O; `Submit` only reports whether the default action was prevented.
- Buttons are immutable values. Changes to a button's attributes, and the removal of a button from the document between the mousedown and the timer, are not modelled.
- Only one form per page is modelled, as the source assumes. Several forms sharing the singleton overlay are not modelled.
- The page being unloaded while the timer is pending is not modelled. That would cancel the timer.
