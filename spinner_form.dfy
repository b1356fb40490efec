/*
 * The behaviour as the source runs it: one object per node-editing form
 * whose fields the event handlers update in place. `attached` and
 * `processing` are the form's jQuery data flags, `clickedButton` is the
 * closure variable shared by the handlers, `overlayVisible` is the display
 * of the singleton overlay and `hiddenFields` the inputs appended to the form.
 */
module SpinnerBehavior {
  import opened SpinnerModel

  class NodeFormSpinner {
    var attached: bool
    var processing: bool
    var targets: set<Button>
    var clickedButton: Option<Button>
    var overlayVisible: bool
    var timerPending: bool
    ghost var timersScheduled: nat
    ghost var listenerPairs: nat
    var hiddenFields: seq<Field>
    var nativeSubmits: nat

    /** The fields as a value of the state machine. */
    ghost function Snapshot(): State
      reads this
    {
      State(attached, processing, targets, clickedButton, overlayVisible,
            timerPending, timersScheduled, listenerPairs, hiddenFields, nativeSubmits)
    }

    ghost predicate Valid()
      reads this
    {
      Inv(Snapshot())
    }

    /** A page has just loaded the form; the overlay is in whatever state the page left it. */
    constructor (overlayShown: bool)
      ensures Valid() && Snapshot() == Initial(overlayShown)
    {
      attached, processing := false, false;
      targets, clickedButton := {}, None;
      overlayVisible, timerPending := overlayShown, false;
      timersScheduled, listenerPairs := 0, 0;
      hiddenFields, nativeSubmits := [], 0;
    }

    /**
     * An attach pass. `form` is what the pass finds in its context: None when
     * the form is not there, otherwise the form's controls.
     */
    method Attach(form: Option<set<Button>>)
      requires Valid()
      modifies this
      ensures Valid()
      ensures Snapshot() == AttachStep(old(Snapshot()), form)
      ensures old(attached) || form.None? ==> Snapshot() == old(Snapshot())
      ensures attached == (old(attached) || form.Some?)
      ensures listenerPairs == if attached then 1 else 0
      ensures !old(attached) && form.Some? ==> !overlayVisible && targets == TargetsIn(form.value)
    {
      if form.Some? && !attached {
        overlayVisible := false;
        clickedButton := None;
        targets := TargetsIn(form.value);
        listenerPairs := listenerPairs + 1;
        attached := true;
      }
    }

    /** A mousedown on `button`; only the target buttons carry the listener. */
    method MouseDown(button: Button)
      requires Valid()
      modifies this
      ensures Valid()
      ensures Snapshot() == MouseDownStep(old(Snapshot()), button)
      ensures button in targets ==> clickedButton == Some(button)
      ensures button !in targets ==> clickedButton == old(clickedButton)
      ensures Snapshot().(clicked := old(clickedButton)) == old(Snapshot())
    {
      if button in targets {
        clickedButton := Some(button);
      }
    }

    /** A submit event on the form; `prevented` tells whether its default action was prevented. */
    method Submit() returns (prevented: bool)
      requires Valid()
      modifies this
      ensures Valid()
      ensures Snapshot() == SubmitStep(old(Snapshot()))
      ensures prevented <==> old(attached) && old(clickedButton).Some? && !old(processing)
      ensures prevented ==> processing && overlayVisible && timerPending && timersScheduled == 1
      ensures !prevented ==> Snapshot() == old(Snapshot())
    {
      prevented := false;
      if attached && clickedButton.Some? && !processing {
        prevented := true;
        processing := true;
        overlayVisible := true;
        timerPending := true;
        timersScheduled := timersScheduled + 1;
      }
    }

    /** The pending timer expires: append the hidden input if the button has a name, then submit natively. */
    method FireTimer()
      requires Valid()
      modifies this
      ensures Valid()
      ensures Snapshot() == FireTimerStep(old(Snapshot()))
      ensures old(timerPending) ==> old(hiddenFields) == [] && nativeSubmits == 1 && !timerPending
      ensures old(timerPending) ==> hiddenFields == HiddenFieldFor(clickedButton)
      ensures !old(timerPending) ==> Snapshot() == old(Snapshot())
    {
      if timerPending {
        timerPending := false;
        if clickedButton.Some? && HasName(clickedButton.value) {
          var b := clickedButton.value;
          hiddenFields := hiddenFields + [HiddenInput(b.name.value, b.value)];
        }
        nativeSubmits := nativeSubmits + 1;
      }
    }
  }
}
