/*
 * The AI Layout Builder spinner behaviour as a state machine over values.
 *
 * One node-editing form, its attached and processing flags, the recorded
 * (clicked) button, the singleton overlay, the pending resubmission timer,
 * the hidden inputs the behaviour appends and the number of native
 * form.submit() calls. Each DOM event is a pure step on State; the class in
 * spinner_form.dfy is proved to perform exactly these steps, and the lemmas
 * below state what the behaviour promises over whole event traces.
 */
module SpinnerModel {

  datatype Option<T> = None | Some(value: T)

  /** Element ids of the two buttons the behaviour listens to. */
  const SubmitId := "edit-submit"
  const SaveAndEditLayoutId := "edit-layout-builder-save-and-edit-layout"

  /** Delay in milliseconds between interception and resubmission (not modelled as time). */
  const ResubmitDelayMs: nat := 3000

  /** A submit-capable control of the form: its id and its name and value attributes. */
  datatype Button = Button(id: string, name: Option<string>, value: Option<string>)

  /** A hidden input appended to the form; value None means no value attribute was set. */
  datatype Field = HiddenInput(name: string, value: Option<string>)

  /** The selector `#edit-submit, #edit-layout-builder-save-and-edit-layout`. */
  predicate IsTarget(b: Button)
  {
    b.id == SubmitId || b.id == SaveAndEditLayoutId
  }

  /** `$(button).attr('name')` is truthy: present and not the empty string. */
  predicate HasName(b: Button)
  {
    b.name.Some? && b.name.value != ""
  }

  /** The target buttons the selector finds among a form's controls. */
  function TargetsIn(controls: set<Button>): set<Button>
  {
    set b | b in controls && IsTarget(b)
  }

  /** What the timer callback appends for the recorded button: one input, or nothing. */
  function HiddenFieldFor(clicked: Option<Button>): (r: seq<Field>)
    ensures |r| <= 1
    ensures r != [] <==> clicked.Some? && HasName(clicked.value)
    ensures r != [] ==> r[0].name == clicked.value.name.value && r[0].value == clicked.value.value
  {
    if clicked.Some? && HasName(clicked.value) then
      [HiddenInput(clicked.value.name.value, clicked.value.value)]
    else
      []
  }

  /**
   * Everything the behaviour reads or changes. `listenerPairs` counts the
   * (mousedown, submit) listener registrations and `timersScheduled` the
   * setTimeout calls; both are bookkeeping the source does not keep.
   */
  datatype State = State(
    attached: bool,
    processing: bool,
    targets: set<Button>,
    clicked: Option<Button>,
    overlayVisible: bool,
    timerPending: bool,
    timersScheduled: nat,
    listenerPairs: nat,
    hiddenFields: seq<Field>,
    nativeSubmits: nat)

  /** A freshly loaded form: no flags, nothing recorded; the overlay as the page left it. */
  function Initial(overlayVisible: bool): State
  {
    State(false, false, {}, None, overlayVisible, false, 0, 0, [], 0)
  }

  /** The invariant every reachable state keeps. */
  predicate Inv(s: State)
  {
    && s.listenerPairs == (if s.attached then 1 else 0)
    && (!s.attached ==> s.targets == {} && !s.processing)
    && (s.clicked.Some? ==> s.clicked.value in s.targets)
    && (s.processing ==> s.clicked.Some?)
    && s.timersScheduled == (if s.processing then 1 else 0)
    && s.nativeSubmits + (if s.timerPending then 1 else 0) == s.timersScheduled
    && |s.hiddenFields| <= s.nativeSubmits
  }

  /** `attach(context)`: `form` is what `$('form.node-form', context)` finds, as its controls. */
  function AttachStep(s: State, form: Option<set<Button>>): (t: State)
    ensures Inv(s) ==> Inv(t)
    ensures t.attached == (s.attached || form.Some?)
    ensures s.attached || form.None? ==> t == s
    ensures !s.attached && form.Some? ==>
      && !t.overlayVisible && t.clicked == None && t.listenerPairs == s.listenerPairs + 1
      && (forall b :: b in t.targets <==> b in form.value && IsTarget(b))
  {
    if form.Some? && !s.attached then
      s.(overlayVisible := false, clicked := None, targets := TargetsIn(form.value),
         listenerPairs := s.listenerPairs + 1, attached := true)
    else
      s
  }

  /** A mousedown on `b`: only buttons carrying the listener react, and they always overwrite. */
  function MouseDownStep(s: State, b: Button): (t: State)
    ensures Inv(s) ==> Inv(t)
    ensures b in s.targets ==> t.clicked == Some(b)
    ensures b !in s.targets ==> t == s
    ensures t.(clicked := s.clicked) == s
  {
    if b in s.targets then s.(clicked := Some(b)) else s
  }

  /**
   * The submit listener exists and its guard passes: the default action is
   * prevented. In a reachable state this means a target button is recorded
   * and no timer was ever scheduled.
   */
  predicate Intercepts(s: State): (r: bool)
    ensures r && Inv(s) ==>
      && s.clicked.Some? && s.clicked.value in s.targets
      && s.timersScheduled == 0 && !s.timerPending && s.nativeSubmits == 0 && s.hiddenFields == []
  {
    s.attached && s.clicked.Some? && !s.processing
  }

  function SubmitStep(s: State): (t: State)
    ensures Inv(s) ==> Inv(t)
    ensures s.processing || s.clicked.None? || !s.attached ==> t == s
    ensures Intercepts(s) ==>
      t.processing && t.overlayVisible && t.timerPending && t.timersScheduled == s.timersScheduled + 1
    ensures t.(processing := s.processing, overlayVisible := s.overlayVisible,
               timerPending := s.timerPending, timersScheduled := s.timersScheduled) == s
  {
    if Intercepts(s) then
      s.(processing := true, overlayVisible := true, timerPending := true,
         timersScheduled := s.timersScheduled + 1)
    else
      s
  }

  /** The setTimeout callback, run when a pending timer expires. */
  function FireTimerStep(s: State): (t: State)
    ensures Inv(s) ==> Inv(t)
    ensures !s.timerPending ==> t == s
    ensures s.timerPending ==>
      && !t.timerPending && t.nativeSubmits == s.nativeSubmits + 1
      && t.hiddenFields == s.hiddenFields + HiddenFieldFor(s.clicked)
    ensures Inv(s) && s.timerPending ==> s.hiddenFields == [] && t.nativeSubmits == 1 && |t.hiddenFields| <= 1
    ensures t.(timerPending := s.timerPending, hiddenFields := s.hiddenFields,
               nativeSubmits := s.nativeSubmits) == s
  {
    if s.timerPending then
      s.(timerPending := false, hiddenFields := s.hiddenFields + HiddenFieldFor(s.clicked),
         nativeSubmits := s.nativeSubmits + 1)
    else
      s
  }

  datatype Event =
    | AttachPass(form: Option<set<Button>>)
    | MouseDown(button: Button)
    | SubmitEvent
    | TimerExpiry

  function Step(s: State, e: Event): State
  {
    match e
    case AttachPass(form) => AttachStep(s, form)
    case MouseDown(b) => MouseDownStep(s, b)
    case SubmitEvent => SubmitStep(s)
    case TimerExpiry => FireTimerStep(s)
  }

  function Run(s: State, events: seq<Event>): State
    decreases |events|
  {
    if events == [] then s else Run(Step(s, events[0]), events[1..])
  }

  /** How many submit events of the trace had their default action prevented. */
  function Interceptions(s: State, events: seq<Event>): nat
    decreases |events|
  {
    if events == [] then 0
    else (if events[0].SubmitEvent? && Intercepts(s) then 1 else 0)
         + Interceptions(Step(s, events[0]), events[1..])
  }

  // ---------------------------------------------------------------------
  // One event at a time

  lemma InitialIsValid(overlayVisible: bool)
    ensures Inv(Initial(overlayVisible))
    ensures Initial(overlayVisible).hiddenFields == [] && Initial(overlayVisible).nativeSubmits == 0
  {
  }

  /**
   * The first attach that finds the form hides the overlay, registers one
   * pair of listeners on the target buttons it finds and sets the flag.
   */
  lemma FirstAttach(s: State, controls: set<Button>)
    requires Inv(s) && !s.attached
    ensures var t := AttachStep(s, Some(controls));
      && t.attached && !t.overlayVisible && t.listenerPairs == 1
      && (forall b :: b in t.targets <==> b in controls && IsTarget(b))
      && t.clicked == None && !t.processing && !t.timerPending
  {
  }

  /** Once attached, any further attach pass is a no-op. */
  lemma AttachIdempotent(s: State, form: Option<set<Button>>, again: Option<set<Button>>)
    requires form.Some?
    ensures AttachStep(AttachStep(s, form), again) == AttachStep(s, form)
  {
  }

  /** The first intercepted submit sets processing, shows the overlay and schedules one timer. */
  lemma SubmitIntercepts(s: State)
    requires Inv(s) && s.attached && s.clicked.Some? && !s.processing
    ensures var t := SubmitStep(s);
      && Intercepts(s)
      && t.processing && t.overlayVisible && t.timerPending && t.timersScheduled == 1
      && t.clicked == s.clicked && t.hiddenFields == s.hiddenFields == [] && t.nativeSubmits == 0
  {
  }

  /**
   * The timer callback: no hidden input exists before it; it appends the
   * recorded button's name and value exactly when that button has a name,
   * and calls native submit exactly once.
   */
  lemma FireTimerResubmits(s: State)
    requires Inv(s) && s.timerPending
    ensures var t := FireTimerStep(s);
      && s.hiddenFields == [] && s.nativeSubmits == 0
      && t.nativeSubmits == 1 && !t.timerPending
      && (|t.hiddenFields| == 1 <==> HasName(s.clicked.value))
      && (HasName(s.clicked.value) ==>
            t.hiddenFields == [HiddenInput(s.clicked.value.name.value, s.clicked.value.value)])
      && (!HasName(s.clicked.value) ==> t.hiddenFields == [])
  {
  }

  /**
   * The native submit is terminal; if a submit event were dispatched for it
   * anyway, the processing flag lets it pass through untouched.
   */
  lemma ResubmissionPassesThrough(s: State)
    requires Inv(s) && s.timerPending
    ensures !Intercepts(FireTimerStep(s))
    ensures SubmitStep(FireTimerStep(s)) == FireTimerStep(s)
  {
  }

  /**
   * A submit arriving during the delay (the user presses Enter, say) passes
   * through while the resubmission is still pending: the browser submits the
   * form, and the timer will later submit it a second time.
   */
  lemma SubmitDuringDelayPassesThrough(s: State)
    requires Inv(s) && s.timerPending
    ensures !Intercepts(s) && SubmitStep(s) == s && s.timerPending
  {
  }

  /**
   * The recorded button is read when the timer fires, not at submit time: a
   * mousedown on another target button during the delay decides which name
   * and value are appended.
   */
  lemma {:induction false} ButtonReadWhenTimerFires(s: State, b: Button)
    requires Inv(s) && s.timerPending && b in s.targets
    ensures Run(s, [MouseDown(b), TimerExpiry]).hiddenFields == HiddenFieldFor(Some(b))
    ensures Run(s, [MouseDown(b), TimerExpiry]).nativeSubmits == 1
  {
    var t := MouseDownStep(s, b);
    assert Run(s, [MouseDown(b), TimerExpiry]) == Run(t, [TimerExpiry]);
    assert Run(t, [TimerExpiry]) == FireTimerStep(t);
  }

  /**
   * The guard tests only that some target button has ever had a mousedown,
   * not which control submitted: after a mousedown on target `b`, a mousedown
   * on a control without the listener (a Preview button, say) and a submit
   * from it (or from the Enter key; the submit event carries no submitter)
   * is intercepted, and the resubmission carries `b`'s name and value.
   */
  lemma {:induction false} StaleButtonIntercepts(s: State, b: Button, other: Button)
    requires Inv(s) && s.attached && !s.processing && b in s.targets && other !in s.targets
    ensures Intercepts(MouseDownStep(MouseDownStep(s, b), other))
    ensures Interceptions(s, [MouseDown(b), MouseDown(other), SubmitEvent, TimerExpiry]) == 1
    ensures Run(s, [MouseDown(b), MouseDown(other), SubmitEvent, TimerExpiry]).hiddenFields
              == HiddenFieldFor(Some(b))
  {
    var events := [MouseDown(b), MouseDown(other), SubmitEvent, TimerExpiry];
    var s1 := MouseDownStep(s, b);
    var s2 := MouseDownStep(s1, other);
    var s3 := SubmitStep(s2);
    assert events[1..] == [MouseDown(other), SubmitEvent, TimerExpiry];
    assert events[2..] == [SubmitEvent, TimerExpiry];
    assert events[3..] == [TimerExpiry];
    assert Run(s, events) == Run(s1, events[1..]) == Run(s2, events[2..]) == Run(s3, events[3..]);
    assert Run(s3, events[3..]) == FireTimerStep(s3);
    assert Interceptions(s, events) == Interceptions(s1, events[1..]);
    assert Interceptions(s1, events[1..]) == Interceptions(s2, events[2..]);
    assert Interceptions(s2, events[2..]) == 1 + Interceptions(s3, events[3..]);
  }

  // ---------------------------------------------------------------------
  // Whole traces

  lemma {:induction false} RunPreservesInv(s: State, events: seq<Event>)
    requires Inv(s)
    ensures Inv(Run(s, events))
    decreases |events|
  {
    if events != [] {
      RunPreservesInv(Step(s, events[0]), events[1..]);
    }
  }

  /** Every intercepted submit schedules exactly one timer, and nothing else does. */
  lemma {:induction false} InterceptionsScheduleTimers(s: State, events: seq<Event>)
    requires Inv(s)
    ensures Run(s, events).timersScheduled == s.timersScheduled + Interceptions(s, events)
    decreases |events|
  {
    if events != [] {
      InterceptionsScheduleTimers(Step(s, events[0]), events[1..]);
    }
  }

  /**
   * From a freshly loaded form, whatever happens: at most one submit is
   * intercepted, at most one timer is scheduled, native submit is called at
   * most once and at most one hidden input is appended.
   */
  lemma {:induction false} AtMostOneResubmission(overlayVisible: bool, events: seq<Event>)
    ensures var t := Run(Initial(overlayVisible), events);
      && Interceptions(Initial(overlayVisible), events) <= 1
      && t.timersScheduled <= 1 && t.nativeSubmits <= 1 && |t.hiddenFields| <= 1
  {
    InitialIsValid(overlayVisible);
    InterceptionsScheduleTimers(Initial(overlayVisible), events);
    RunPreservesInv(Initial(overlayVisible), events);
  }

  /** Processing is never cleared, so no later submit is intercepted. */
  lemma {:induction false} ProcessingSticks(s: State, events: seq<Event>)
    requires Inv(s) && s.processing
    ensures Run(s, events).processing
    ensures Interceptions(s, events) == 0
    ensures Run(s, events).timersScheduled == 1
    decreases |events|
  {
    if events != [] {
      ProcessingSticks(Step(s, events[0]), events[1..]);
    }
  }

  /** Attach passes repeated n >= 1 times act as one: one pair of listeners at most. */
  lemma {:induction false} RepeatedAttach(s: State, form: Option<set<Button>>, n: nat)
    requires Inv(s) && n >= 1
    ensures Run(s, seq(n, _ => AttachPass(form))) == AttachStep(s, form)
    ensures Run(s, seq(n, _ => AttachPass(form))).listenerPairs
              == (if s.attached || form.Some? then 1 else 0)
  {
    var events := seq(n, _ => AttachPass(form));
    var t := AttachStep(s, form);
    assert Run(s, events) == Run(t, events[1..]);
    AttachLeavesAttached(t, form, n - 1);
    assert events[1..] == seq(n - 1, _ => AttachPass(form));
  }

  lemma {:induction false} AttachLeavesAttached(t: State, form: Option<set<Button>>, k: nat)
    requires t == AttachStep(t, form)
    ensures Run(t, seq(k, _ => AttachPass(form))) == t
    decreases k
  {
    if k > 0 {
      var events := seq(k, _ => AttachPass(form));
      assert events[1..] == seq(k - 1, _ => AttachPass(form));
      AttachLeavesAttached(t, form, k - 1);
    }
  }

  /** Until an attach pass finds the form, no event has any effect. */
  lemma {:induction false} NoFormNoEffect(s: State, events: seq<Event>)
    requires Inv(s) && !s.attached
    requires forall i :: 0 <= i < |events| ==> !(events[i].AttachPass? && events[i].form.Some?)
    ensures Run(s, events) == s
    ensures Interceptions(s, events) == 0
    decreases |events|
  {
    if events != [] {
      assert Step(s, events[0]) == s;
      NoFormNoEffect(s, events[1..]);
    }
  }

  /**
   * When the form has no target button, no button can ever be recorded: every
   * submit passes through and the state never changes again.
   */
  lemma {:induction false} NoTargetsNoEffect(s: State, events: seq<Event>)
    requires Inv(s) && s.attached && s.targets == {}
    ensures Run(s, events) == s
    ensures Interceptions(s, events) == 0
    decreases |events|
  {
    if events != [] {
      assert Step(s, events[0]) == s;
      NoTargetsNoEffect(s, events[1..]);
    }
  }
}
