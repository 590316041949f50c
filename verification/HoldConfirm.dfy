/** `hold_confirm.py`: a destructive action is confirmed by holding Confirm for a whole duration. */
module HoldConfirm {
  import opened Options

  datatype Action = Up | Down | Back | Confirm | ConfirmReleased | OtherAction

  /** A semantic input event; a touch carries the index of the touched entry. */
  datatype InputEvent = InputEvent(action: Action, touchIndex: Option<int>)

  function Positive(dt: real): real {
    if dt < 0.0 then 0.0 else dt
  }

  /** The state of the widget as a value. */
  datatype Hold = Hold(duration: real, held: real, pressed: bool, confirmed: bool, cancelled: bool) {

    predicate Settled() { confirmed || cancelled }

    function Press(): Hold {
      if Settled() then this else this.(pressed := true)
    }

    function Release(): Hold {
      this.(pressed := false, held := 0.0)
    }

    function Cancel(): Hold {
      if confirmed then this else this.(cancelled := true, pressed := false)
    }

    function Tick(dt: real): Hold {
      if !pressed || Settled() then this
      else
        var total := held + Positive(dt);
        if total >= duration then this.(held := total, confirmed := true, pressed := false) else this.(held := total)
    }

    function Reset(): Hold {
      Hold(duration, 0.0, false, false, false)
    }

    /** `handle_hold_to_confirm_event` */
    function On(action: Action): Hold {
      match action
      case Confirm => Press()
      case ConfirmReleased => Release()
      case Back => Cancel()
      case _ => this
    }
  }

  // ---- when a hold confirms -------------------------------------------------------------------

  datatype HoldInput = Event(action: Action) | Pass(dt: real)

  /** A fresh hold after some events and times. */
  function After(duration: real, inputs: seq<HoldInput>): Hold {
    if inputs == [] then Hold(duration, 0.0, false, false, false)
    else
      match inputs[|inputs| - 1]
      case Event(action) => After(duration, inputs[..|inputs| - 1]).On(action)
      case Pass(dt) => After(duration, inputs[..|inputs| - 1]).Tick(dt)
  }

  /** The time that passes from one input up to another. */
  function TimeIn(inputs: seq<HoldInput>, from: nat, to: nat): real
    requires from <= to <= |inputs|
  {
    if from == to then 0.0 else TimeIn(inputs, from, to - 1) + if inputs[to - 1].Pass? then Positive(inputs[to - 1].dt) else 0.0
  }

  /** Confirm went down at input `j` and has not been released up to input `m`, nor has Back ever been pressed. */
  ghost predicate HeldDown(inputs: seq<HoldInput>, j: nat, m: nat) {
    && j < m <= |inputs| && inputs[j] == Event(Confirm)
    && (forall k | 0 <= k < m :: inputs[k] != Event(Back)) && (forall k | j < k < m :: inputs[k] != Event(ConfirmReleased))
  }

  /** It was held down for the whole duration, which a passing of time completed. */
  ghost predicate FullHold(duration: real, inputs: seq<HoldInput>, j: nat, m: nat) {
    HeldDown(inputs, j, m) && inputs[m - 1].Pass? && TimeIn(inputs, j + 1, m) >= duration
  }

  lemma {:induction false} TimeInPrefix(inputs: seq<HoldInput>, from: nat, to: nat)
    requires from <= to < |inputs|
    ensures TimeIn(inputs[..|inputs| - 1], from, to) == TimeIn(inputs, from, to)
  {
    if from < to { TimeInPrefix(inputs, from, to - 1); }
  }

  lemma LongerRun(duration: real, inputs: seq<HoldInput>, j: nat, m: nat)
    requires inputs != []
    ensures HeldDown(inputs[..|inputs| - 1], j, m) ==> HeldDown(inputs, j, m)
    ensures FullHold(duration, inputs[..|inputs| - 1], j, m) ==> FullHold(duration, inputs, j, m)
  {
    if HeldDown(inputs[..|inputs| - 1], j, m) { TimeInPrefix(inputs, j + 1, m); }
  }

  /** What a hold has to show for its state. */
  ghost predicate Explained(duration: real, inputs: seq<HoldInput>, h: Hold) {
    && h.duration == duration
    && (h.confirmed ==> exists j: nat, m: nat :: FullHold(duration, inputs, j, m))
    && (!h.confirmed ==> (h.cancelled <==> Event(Back) in inputs) && (h.pressed ==> !h.cancelled))
    && (!h.confirmed && !h.cancelled && !h.pressed ==> h.held == 0.0)
    && (!h.confirmed && h.pressed ==> exists j: nat :: HeldDown(inputs, j, |inputs|) && h.held == TimeIn(inputs, j + 1, |inputs|))
  }

  lemma {:induction false} StateIsExplained(duration: real, inputs: seq<HoldInput>)
    ensures Explained(duration, inputs, After(duration, inputs))
  {
    if inputs != [] {
      var n := |inputs| - 1;
      var before, h, h' := inputs[..n], After(duration, inputs[..n]), After(duration, inputs);
      StateIsExplained(duration, before);
      assert inputs == before + [inputs[n]];
      if h.confirmed {
        var j: nat, m: nat :| FullHold(duration, before, j, m);
        LongerRun(duration, inputs, j, m);
      } else if h.pressed {
        var j: nat :| HeldDown(before, j, n) && h.held == TimeIn(before, j + 1, n);
        HoldGoesOn(duration, inputs, j);
        assert h'.confirmed ==> FullHold(duration, inputs, j, n + 1);
        assert !h'.confirmed && h'.pressed ==> HeldDown(inputs, j, n + 1) && h'.held == TimeIn(inputs, j + 1, n + 1);
      } else if h'.pressed {
        PressBegins(inputs);
        assert HeldDown(inputs, n, n + 1) && h'.held == TimeIn(inputs, n + 1, n + 1);
      }
    }
  }

  lemma HoldGoesOn(duration: real, inputs: seq<HoldInput>, j: nat)
    requires inputs != [] && HeldDown(inputs[..|inputs| - 1], j, |inputs| - 1)
    ensures TimeIn(inputs[..|inputs| - 1], j + 1, |inputs| - 1) == TimeIn(inputs, j + 1, |inputs| - 1)
    ensures inputs[|inputs| - 1] != Event(Back) && inputs[|inputs| - 1] != Event(ConfirmReleased) ==> HeldDown(inputs, j, |inputs|)
  {
    TimeInPrefix(inputs, j + 1, |inputs| - 1);
  }

  lemma PressBegins(inputs: seq<HoldInput>)
    requires inputs != [] && inputs[|inputs| - 1] == Event(Confirm) && Event(Back) !in inputs
    ensures HeldDown(inputs, |inputs| - 1, |inputs|) && TimeIn(inputs, |inputs|, |inputs|) == 0.0
  {
  }

  /** While Confirm is held down, the hold is confirmed or counts at least the time since. */
  lemma {:induction false} HoldCounts(duration: real, inputs: seq<HoldInput>, j: nat, m: nat)
    requires HeldDown(inputs, j, m)
    ensures var h := After(duration, inputs[..m]);
      h.confirmed || (h.duration == duration && h.pressed && !h.cancelled && h.held >= TimeIn(inputs, j + 1, m))
    ensures inputs[m - 1].Pass? && TimeIn(inputs, j + 1, m) >= duration ==> After(duration, inputs[..m]).confirmed
  {
    var before := inputs[..m - 1];
    assert inputs[..m][..m - 1] == before;
    StateIsExplained(duration, before);
    NotCancelledYet(inputs, m - 1);
    if m > j + 1 {
      HoldCounts(duration, inputs, j, m - 1);
    } else {
      HeldIsNatural(duration, before);
    }
  }

  lemma {:induction false} HeldIsNatural(duration: real, inputs: seq<HoldInput>)
    ensures After(duration, inputs).held >= 0.0
  {
    if inputs != [] { HeldIsNatural(duration, inputs[..|inputs| - 1]); }
  }

  lemma NotCancelledYet(inputs: seq<HoldInput>, n: nat)
    requires n < |inputs| && forall k | 0 <= k < n :: inputs[k] != Event(Back)
    ensures Event(Back) !in inputs[..n]
  {
  }

  lemma {:induction false} ConfirmedStays(duration: real, inputs: seq<HoldInput>, m: nat)
    requires m <= |inputs| && After(duration, inputs[..m]).confirmed
    ensures After(duration, inputs).confirmed
  {
    if m == |inputs| {
      assert inputs[..m] == inputs;
    } else {
      assert inputs[..|inputs| - 1][..m] == inputs[..m];
      ConfirmedStays(duration, inputs[..|inputs| - 1], m);
    }
  }

  /**
   * Whatever is pressed and however time passes: the action is confirmed if and only if Confirm was held down without a
   * release for the whole duration, and Back was not pressed before that was complete.
   */
  lemma ConfirmedExactlyAfterFullHold(duration: real, inputs: seq<HoldInput>)
    ensures After(duration, inputs).confirmed <==> exists j: nat, m: nat :: FullHold(duration, inputs, j, m)
  {
    StateIsExplained(duration, inputs);
    if j: nat, m: nat :| FullHold(duration, inputs, j, m) {
      HoldCounts(duration, inputs, j, m);
      ConfirmedStays(duration, inputs, m);
    }
  }

  // ---- the object -------------------------------------------------------------------------------

  class HoldToConfirmState {
    const duration: real
    var held: real
    var pressed: bool
    var confirmed: bool
    var cancelled: bool

    constructor (duration: real)
      ensures View() == Hold(duration, 0.0, false, false, false)
    {
      this.duration := duration;
      held, pressed, confirmed, cancelled := 0.0, false, false, false;
    }

    function View(): Hold
      reads this
    {
      Hold(duration, held, pressed, confirmed, cancelled)
    }

    method Press()
      modifies this
      ensures View() == old(View()).Press()
    {
      if !(confirmed || cancelled) { pressed := true; }
    }

    method Release()
      modifies this
      ensures View() == old(View()).Release()
    {
      pressed := false;
      held := 0.0;
    }

    method Cancel()
      modifies this
      ensures View() == old(View()).Cancel()
    {
      if !confirmed {
        cancelled := true;
        pressed := false;
      }
    }

    method Update(dt: real)
      modifies this
      ensures View() == old(View()).Tick(dt)
    {
      if !pressed || confirmed || cancelled { return; }
      held := held + Positive(dt);
      if held >= duration {
        confirmed := true;
        pressed := false;
      }
    }

    method Reset()
      modifies this
      ensures View() == old(View()).Reset()
    {
      held, pressed, confirmed, cancelled := 0.0, false, false, false;
    }

    method HandleEvent(event: InputEvent)
      modifies this
      ensures View() == old(View()).On(event.action)
    {
      if event.action == Confirm {
        Press();
      } else if event.action == ConfirmReleased {
        Release();
      } else if event.action == Back {
        Cancel();
      }
    }
  }
}
