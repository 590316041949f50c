/** `ConflictPopupState` of `savesync_conflict_popup.py`, over arbitrary inputs, times and backend outcomes. */
module ConflictPopup {
  import opened Options
  import opened Ordering
  import opened HoldConfirm

  datatype Step = Loading | Displaying | Applying | Done

  /** An identifier is text, or some other value of the answer, of which `str` makes a text. */
  datatype Identifier = Text(text: string) | Other(text: string)

  /** A conflict as the backend describes it: a dictionary that may lack its identifier, or be empty. */
  datatype Conflict = Conflict(id: Option<Identifier>, hasDetails: bool) {
    predicate IsEmpty() { id == None && !hasDetails }
  }

  const NO_CONFLICT := Conflict(None, false)

  datatype Item = Dictionary(conflict: Conflict) | SomethingElse

  /** What one look at the backend operation finds; `conflicts` is `None` if the answer holds no list. */
  datatype Poll = Running | Failed(error: string) | Succeeded(conflicts: Option<seq<Item>>)

  /** An operation handed to the backend. */
  datatype Sent = LoadConflicts | ConflictAction(conflictId: Identifier, action: string)

  const ACTION_NAMES := ["upload-local", "download-remote", "resolve-later"]

  predicate Destructive(index: int) { index == 0 || index == 1 }

  predicate Overwrites(sent: Sent) {
    sent.ConflictAction? && sent.action != "resolve-later"
  }

  function Dictionaries(items: seq<Item>): seq<Conflict> {
    if items == [] then []
    else if items[0].Dictionary? then [items[0].conflict] + Dictionaries(items[1..])
    else Dictionaries(items[1..])
  }

  /** The conflicts whose identifier is not this very text. */
  function Without(conflicts: seq<Conflict>, id: string): seq<Conflict> {
    if conflicts == [] then []
    else if conflicts[0].id == Some(Text(id)) then Without(conflicts[1..], id)
    else [conflicts[0]] + Without(conflicts[1..], id)
  }

  /** The entries of the popup are numbered from 0 to 2. */
  function Clamp(index: int): int {
    if index < 0 then 0 else if index > 2 then 2 else index
  }

  /** The state of the popup as a value; `sent` is everything it has handed to the backend. */
  datatype Popup = Popup(
    automatic: bool,
    step: Step,
    selected: int,
    conflict: Conflict,
    conflicts: seq<Conflict>,
    error: string,
    hold: Hold,
    running: bool,
    sent: seq<Sent>)
  {
    function Launch(operation: Sent): Popup {
      this.(running := true, sent := sent + [operation])
    }

    function Start(): Popup {
      this.(error := "").Launch(LoadConflicts).(step := Loading)
    }

    function Select(index: int): Popup {
      var s := Clamp(index);
      this.(selected := s, hold := if s != selected then hold.Reset() else hold)
    }

    /** Applying raises: the conflict has no identifier to send. */
    predicate ApplyRaises() {
      step == Displaying && !conflict.IsEmpty() && conflict.id == None
    }

    function Apply(action: string): Popup {
      if step != Displaying || conflict.IsEmpty() then this
      else if conflict.id == None then this.(error := "")
      else this.(error := "").Launch(ConflictAction(conflict.id.value, action)).(step := Applying)
    }

    function HandleEvent(event: InputEvent): Popup {
      if step != Displaying then this
      else
        var touched := if event.touchIndex == None then this else Select(event.touchIndex.value);
        if event.action == Up then touched.Select(touched.selected - 1)
        else if event.action == Down then touched.Select(touched.selected + 1)
        else if event.action == Back then touched.Apply("resolve-later")
        else if Destructive(touched.selected) then touched.(hold := touched.hold.On(event.action))
        else if event.action == Confirm then touched.Apply("resolve-later")
        else touched
    }

    /** Shows the first of the pending conflicts, with nothing held. */
    function Show(): Popup
      requires conflicts != []
    {
      this.(conflict := conflicts[0], selected := 0, hold := hold.Reset(), step := Displaying)
    }

    function PollOnce(poll: Poll): Popup {
      if !running || poll.Running? then this
      else
        var idle := this.(running := false);
        match poll
        case Failed(error) =>
          idle.(error := if error == "" then "SaveSync conflict operation failed." else error, hold := hold.Reset(),
                step := if conflict.IsEmpty() then Done else Displaying)
        case Succeeded(answer) =>
          if step == Loading then
            match answer {
              case None => idle.(error := "Unexpected SaveSync conflict response.", step := Done)
              case Some(items) =>
                var loaded := idle.(conflicts := Dictionaries(items));
                if loaded.conflicts == [] then loaded.(step := Done) else loaded.Show()
            }
          else
            var handled := if conflict.id == None then "" else conflict.id.value.text;
            var rest := idle.(conflicts := Without(conflicts, handled));
            if rest.conflicts != [] then rest.Show()
            else if automatic then rest.(conflict := NO_CONFLICT).Start()
            else rest.(conflict := NO_CONFLICT, step := Done)
    }

    /** The part of `update` before the poll. */
    function Elapse(dt: real): Popup {
      if step == Displaying && Destructive(selected) then
        var ticked := this.(hold := hold.Tick(dt));
        if ticked.hold.confirmed then ticked.Apply(ACTION_NAMES[selected]) else ticked
      else this
    }

    predicate ElapseRaises(dt: real) {
      step == Displaying && Destructive(selected) && hold.Tick(dt).confirmed && ApplyRaises()
    }

    function Update(dt: real, poll: Poll): Popup {
      if ElapseRaises(dt) then Elapse(dt) else Elapse(dt).PollOnce(poll)
    }

    function CancelPending(): Popup {
      this.(running := false)
    }
  }

  function Opened(automatic: bool, duration: real): Popup {
    Popup(automatic, Loading, 0, NO_CONFLICT, [], "", Hold(duration, 0.0, false, false, false), false, [])
  }

  // ---- the object -----------------------------------------------------------------------------

  class ConflictPopupState {
    const automatic: bool
    var step: Step
    var selectedIndex: int
    var conflict: Conflict
    var conflicts: seq<Conflict>
    var error: string
    const confirm: HoldToConfirmState
    var running: bool
    /** Everything handed to the backend so far. */
    ghost var sent: seq<Sent>

    constructor (automatic: bool, duration: real)
      ensures fresh(confirm) && View() == Opened(automatic, duration)
    {
      this.automatic := automatic;
      confirm := new HoldToConfirmState(duration);
      step, selectedIndex, conflict, conflicts := Loading, 0, NO_CONFLICT, [];
      error, running, sent := "", false, [];
    }

    ghost function View(): Popup
      reads this, confirm
    {
      Popup(automatic, step, selectedIndex, conflict, conflicts, error, confirm.View(), running, sent)
    }

    method StartOperation(operation: Sent)
      modifies this
      ensures View() == old(View()).Launch(operation)
    {
      running := true;
      sent := sent + [operation];
    }

    method Start()
      modifies this
      ensures View() == old(View()).Start()
    {
      error := "";
      StartOperation(LoadConflicts);
      step := Loading;
    }

    method Select(index: int)
      modifies this, confirm
      ensures View() == old(View()).Select(index)
    {
      var selected := Clamp(index);
      if selected != selectedIndex {
        confirm.Reset();
      }
      selectedIndex := selected;
    }

    method Apply(action: string) returns (raised: bool)
      modifies this
      ensures View() == old(View()).Apply(action) && (raised <==> old(View()).ApplyRaises())
    {
      if step != Displaying || conflict.IsEmpty() { return false; }
      error := "";
      if conflict.id == None { return true; }
      StartOperation(ConflictAction(conflict.id.value, action));
      step := Applying;
      return false;
    }

    method HandleEvent(event: InputEvent) returns (raised: bool)
      modifies this, confirm
      ensures View() == old(View()).HandleEvent(event)
    {
      if step != Displaying { return false; }
      if event.touchIndex != None {
        Select(event.touchIndex.value);
      }
      if event.action == Up {
        Select(selectedIndex - 1);
        return false;
      }
      if event.action == Down {
        Select(selectedIndex + 1);
        return false;
      }
      if event.action == Back {
        raised := Apply("resolve-later");
        return;
      }
      if Destructive(selectedIndex) {
        confirm.HandleEvent(event);
      } else if event.action == Confirm {
        raised := Apply("resolve-later");
        return;
      }
      return false;
    }

    method Update(dt: real, poll: Poll) returns (raised: bool)
      modifies this, confirm
      ensures View() == old(View()).Update(dt, poll) && (raised <==> old(View()).ElapseRaises(dt))
    {
      if step == Displaying && Destructive(selectedIndex) {
        confirm.Update(dt);
        if confirm.confirmed {
          raised := Apply(ACTION_NAMES[selectedIndex]);
          if raised { return; }
        }
      }
      PollOnce(poll);
      return false;
    }

    method PollOnce(poll: Poll)
      modifies this, confirm
      ensures View() == old(View()).PollOnce(poll)
    {
      if !running || poll.Running? { return; }
      var operationStep := step;
      running := false;
      if poll.Failed? {
        error := if poll.error == "" then "SaveSync conflict operation failed." else poll.error;
        confirm.Reset();
        step := if conflict.IsEmpty() then Done else Displaying;
        return;
      }
      if operationStep == Loading {
        if poll.conflicts == None {
          error := "Unexpected SaveSync conflict response.";
          step := Done;
          return;
        }
        conflicts := Dictionaries(poll.conflicts.value);
        if conflicts == [] {
          step := Done;
          return;
        }
        Show();
        return;
      }
      var handled := if conflict.id == None then "" else conflict.id.value.text;
      conflicts := Without(conflicts, handled);
      if conflicts != [] {
        Show();
      } else if automatic {
        conflict := NO_CONFLICT;
        Start();
      } else {
        conflict := NO_CONFLICT;
        step := Done;
      }
    }

    method Show()
      requires conflicts != []
      modifies this, confirm
      ensures View() == old(View()).Show()
    {
      conflict := conflicts[0];
      selectedIndex := 0;
      confirm.Reset();
      step := Displaying;
    }

    method CancelPending()
      modifies this
      ensures View() == old(View()).CancelPending()
    {
      if running {
        running := false;
      }
    }
  }

  // ---- runs -------------------------------------------------------------------------------

  datatype Input = Starting | Selecting(index: int) | Handling(event: InputEvent) | Updating(dt: real, poll: Poll)
                 | Polling(outcome: Poll) | Cancelling

  function Next(p: Popup, input: Input): Popup {
    match input
    case Starting => p.Start()
    case Selecting(index) => p.Select(index)
    case Handling(event) => p.HandleEvent(event)
    case Updating(dt, poll) => p.Update(dt, poll)
    case Polling(outcome) => p.PollOnce(outcome)
    case Cancelling => p.CancelPending()
  }

  /** The states of a run: one before each input and one after the last. */
  ghost predicate IsRun(states: seq<Popup>, inputs: seq<Input>) {
    |states| == |inputs| + 1 && forall k | 0 <= k < |inputs| :: StepAt(states, inputs, k)
  }

  ghost predicate StepAt(states: seq<Popup>, inputs: seq<Input>, k: nat)
    requires |states| == |inputs| + 1 && k < |inputs|
  {
    states[k + 1] == Next(states[k], inputs[k])
  }

  /** Time that updates let pass from input `from` up to input `to`. */
  function Elapsed(inputs: seq<Input>, from: nat, to: nat): real
    requires from <= to <= |inputs|
  {
    if from == to then 0.0
    else Elapsed(inputs, from, to - 1) + Passed(inputs[to - 1])
  }

  function Passed(input: Input): real {
    if input.Updating? then Positive(input.dt) else 0.0
  }

  predicate Releases(input: Input) {
    input.Handling? && input.event.action == ConfirmReleased
  }

  /** What holds between any two inputs. */
  ghost predicate Sound(p: Popup) {
    && 0 <= p.selected <= 2 && (p.hold.pressed ==> Destructive(p.selected))
    && (p.step == Displaying || p.step == Done ==> !p.running)
    && (p.step == Displaying ==> !p.hold.cancelled)
    && (p.step == Displaying && p.hold.confirmed ==> !p.hold.pressed && p.conflict.id == None)
    && (p.step == Displaying && !p.hold.pressed && !p.hold.confirmed ==> p.hold.held == 0.0)
  }

  /** A step that neither hands an overwriting action to the backend nor forgets what was handed over. */
  ghost predicate SendsNoOverwrite(p: Popup, q: Popup) {
    p.sent <= q.sent && forall sent | sent in q.sent[|p.sent|..] :: !Overwrites(sent)
  }

  lemma LaunchSends(p: Popup, operation: Sent)
    requires !Overwrites(operation)
    ensures SendsNoOverwrite(p, p.Launch(operation))
  {
    assert p.Launch(operation).sent[|p.sent|..] == [operation];
  }

  lemma ShowIsSound(p: Popup)
    requires !p.running && p.conflicts != []
    ensures Sound(p.Show()) && p.Show().step == Displaying && p.Show().hold == p.hold.Reset() && p.Show().sent == p.sent
  {
  }

  /** What a poll leaves: nothing that is displayed is touched, and what comes on display is not being held. */
  ghost predicate PollLeaves(p: Popup, q: Popup) {
    && Sound(q) && q.hold.duration == p.hold.duration && SendsNoOverwrite(p, q)
    && (p.step == Displaying ==> q == p)
    && (p.step != Displaying && q.step == Displaying ==> q.hold == p.hold.Reset())
  }

  lemma LoadedFacts(p: Popup, answer: Option<seq<Item>>)
    requires Sound(p) && p.running && p.step == Loading
    ensures PollLeaves(p, p.PollOnce(Succeeded(answer)))
  {
    if answer != None {
      var loaded := p.(running := false, conflicts := Dictionaries(answer.value));
      if loaded.conflicts != [] { ShowIsSound(loaded); }
    }
  }

  lemma AppliedFacts(p: Popup, answer: Option<seq<Item>>)
    requires Sound(p) && p.running && p.step != Loading
    ensures PollLeaves(p, p.PollOnce(Succeeded(answer)))
  {
    var handled := if p.conflict.id == None then "" else p.conflict.id.value.text;
    var rest := p.(running := false, conflicts := Without(p.conflicts, handled));
    if rest.conflicts != [] {
      ShowIsSound(rest);
    } else if p.automatic {
      StartFacts(rest.(conflict := NO_CONFLICT));
    }
  }

  lemma PollFacts(p: Popup, poll: Poll)
    requires Sound(p)
    ensures PollLeaves(p, p.PollOnce(poll))
  {
    if p.running && poll.Succeeded? {
      if p.step == Loading { LoadedFacts(p, poll.conflicts); } else { AppliedFacts(p, poll.conflicts); }
    }
  }

  lemma StartFacts(p: Popup)
    requires 0 <= p.selected <= 2 && (p.hold.pressed ==> Destructive(p.selected))
    ensures Sound(p.Start()) && p.Start().step == Loading && p.Start().hold == p.hold && SendsNoOverwrite(p, p.Start())
    ensures p.Start().error == ""
  {
    LaunchSends(p.(error := ""), LoadConflicts);
  }

  lemma SelectFacts(p: Popup, index: int)
    requires Sound(p)
    ensures var q := p.Select(index); Sound(q) && q.hold == (if q.selected == p.selected then p.hold else p.hold.Reset())
  {
  }

  function Distance(a: int, b: int): int {
    if a < b then b - a else a - b
  }

  /** Selecting any number selects the nearest of the three entries, and keeps the hold exactly if that is no change. */
  lemma SelectsNearest(p: Popup, index: int)
    ensures var q := p.Select(index);
      && 0 <= q.selected <= 2 && (forall entry | 0 <= entry <= 2 :: Distance(index, q.selected) <= Distance(index, entry))
      && q == p.(selected := q.selected, hold := q.hold)
      && (if q.selected == p.selected then q.hold == p.hold else !q.hold.pressed && q.hold.held == 0.0 && !q.hold.confirmed)
  {
  }

  lemma ResolveLaterFacts(p: Popup)
    requires Sound(p)
    ensures var q := p.Apply("resolve-later");
      && Sound(q) && SendsNoOverwrite(p, q) && q.hold == p.hold && q.selected == p.selected && q.conflict == p.conflict
      && (q.step == Displaying ==> p.step == Displaying)
  {
    if p.conflict.id.Some? { LaunchSends(p.(error := ""), ConflictAction(p.conflict.id.value, "resolve-later")); }
  }

  /** What an event leaves: a hold in progress after it was in progress before, or this event began it. */
  ghost predicate EventLeaves(p: Popup, action: Action, q: Popup) {
    && Sound(q) && q.hold.duration == p.hold.duration && SendsNoOverwrite(p, q) && q.conflict == p.conflict
    && (q.step == Displaying ==> p.step == Displaying)
    && (q.step == Displaying && q.hold.pressed ==>
          if p.hold.pressed && p.selected == q.selected then q.hold.held == p.hold.held && action != ConfirmReleased
          else q.hold.held == 0.0 && action == Confirm)
  }

  lemma ActionFacts(p: Popup, action: Action)
    requires Sound(p)
    ensures EventLeaves(p, action, p.HandleEvent(InputEvent(action, None)))
  {
    if p.step == Displaying {
      if action == Up {
        SelectFacts(p, p.selected - 1);
      } else if action == Down {
        SelectFacts(p, p.selected + 1);
      } else {
        ResolveLaterFacts(p);
      }
    }
  }

  lemma EventFacts(p: Popup, event: InputEvent)
    requires Sound(p)
    ensures EventLeaves(p, event.action, p.HandleEvent(event))
  {
    if p.step == Displaying && event.touchIndex != None {
      var touched := p.Select(event.touchIndex.value);
      SelectFacts(p, event.touchIndex.value);
      ActionFacts(touched, event.action);
      assert p.HandleEvent(event) == touched.HandleEvent(InputEvent(event.action, None));
    } else if p.step == Displaying {
      ActionFacts(p, event.action);
    }
  }

  /** What the entries of the popup that overwrite a save ask for. */
  function OverwriteOf(selected: int): string {
    if selected == 0 then "upload-local" else "download-remote"
  }

  /** Time sends only what is selected, for what is displayed, as its hold completes. */
  ghost predicate Completes(p: Popup, dt: real, sent: Sent) {
    && p.step == Displaying && Destructive(p.selected) && p.hold.pressed
    && p.hold.held + Positive(dt) >= p.hold.duration
    && p.conflict.id.Some? && sent == ConflictAction(p.conflict.id.value, OverwriteOf(p.selected))
  }

  lemma ElapseFacts(p: Popup, dt: real)
    requires Sound(p)
    ensures var q := p.Elapse(dt);
      && Sound(q) && q.hold.duration == p.hold.duration && q.conflict == p.conflict && q.selected == p.selected
      && (q.step == Displaying ==> p.step == Displaying)
      && (q.step == Displaying && q.hold.pressed ==> p.hold.pressed && q.hold.held == p.hold.held + Positive(dt))
      && (q.sent == p.sent || exists sent :: q.sent == p.sent + [sent] && Completes(p, dt, sent))
      && (q.step == p.step || q.step == Applying)
  {
    if p.step == Displaying && Destructive(p.selected) && p.hold.Tick(dt).confirmed && p.conflict.id.Some? {
      var sent := ConflictAction(p.conflict.id.value, ACTION_NAMES[p.selected]);
      assert p.Elapse(dt).sent == p.sent + [sent] && Completes(p, dt, sent);
    }
  }

  lemma NextIsSound(p: Popup, input: Input)
    requires Sound(p)
    ensures Sound(Next(p, input)) && Next(p, input).hold.duration == p.hold.duration
  {
    match input
    case Starting => StartFacts(p);
    case Selecting(index) => SelectFacts(p, index);
    case Handling(event) => EventFacts(p, event);
    case Updating(dt, poll) => ElapseFacts(p, dt); PollFacts(p.Elapse(dt), poll);
    case Polling(outcome) => PollFacts(p, outcome);
    case Cancelling =>
  }

  lemma StepIsSound(states: seq<Popup>, inputs: seq<Input>, k: nat)
    requires IsRun(states, inputs) && k < |inputs| && Sound(states[k])
    ensures Sound(states[k + 1]) && states[k + 1].hold.duration == states[k].hold.duration
  {
    assert StepAt(states, inputs, k);
    NextIsSound(states[k], inputs[k]);
  }

  lemma {:induction false} RunIsSound(states: seq<Popup>, inputs: seq<Input>, n: nat)
    requires IsRun(states, inputs) && Sound(states[0]) && n <= |inputs|
    ensures Sound(states[n]) && states[n].hold.duration == states[0].hold.duration
  {
    if n > 0 {
      RunIsSound(states, inputs, n - 1);
      StepIsSound(states, inputs, n - 1);
    }
  }

  /** Every way into the displaying step starts with nothing held. */
  lemma EntryIsReset(p: Popup, input: Input)
    requires Sound(p) && p.step != Displaying && Next(p, input).step == Displaying
    ensures Next(p, input).hold == p.hold.Reset()
  {
    match input
    case Handling(event) => EventFacts(p, event);
    case Updating(dt, poll) => ElapseFacts(p, dt); PollFacts(p.Elapse(dt), poll);
    case Polling(outcome) => PollFacts(p, outcome);
    case _ =>
  }

  /** The hold goes on through an input, with nothing that is shown changed. */
  ghost predicate GoesOn(p: Popup, input: Input, q: Popup) {
    && p.step == Displaying && p.hold.pressed && p.selected == q.selected && q.conflict == p.conflict && !Releases(input)
    && q.hold.held == p.hold.held + Passed(input)
  }

  /** An input begins a hold on what is shown. */
  ghost predicate Begins(p: Popup, input: Input, q: Popup) {
    p.step == Displaying && q.conflict == p.conflict && q.hold.held == 0.0 && input.Handling? && input.event.action == Confirm
  }

  /** A hold in progress after an input went on through it, or began with it. */
  lemma HoldingStep(p: Popup, input: Input)
    requires Sound(p) && Next(p, input).step == Displaying && Next(p, input).hold.pressed
    ensures GoesOn(p, input, Next(p, input)) || Begins(p, input, Next(p, input))
  {
    match input
    case Starting => StartFacts(p);
    case Selecting(index) => SelectFacts(p, index);
    case Handling(event) => EventFacts(p, event);
    case Updating(dt, poll) => ElapseFacts(p, dt); PollFacts(p.Elapse(dt), poll);
    case Polling(outcome) => PollFacts(p, outcome);
    case Cancelling =>
  }

  /** Only an update sends an overwriting action: the selected one, for the displayed conflict, as the hold completes. */
  lemma OverwriteStep(p: Popup, input: Input, sent: Sent)
    requires Sound(p)
    ensures p.sent <= Next(p, input).sent
    ensures sent in Next(p, input).sent[|p.sent|..] && Overwrites(sent) ==> input.Updating? && Completes(p, input.dt, sent)
  {
    match input
    case Starting => StartFacts(p);
    case Selecting(index) => SelectFacts(p, index);
    case Handling(event) => EventFacts(p, event);
    case Updating(dt, poll) => ElapseFacts(p, dt); PollFacts(p.Elapse(dt), poll);
    case Polling(outcome) => PollFacts(p, outcome);
    case Cancelling =>
  }

  // ---- what is sent ----------------------------------------------------------------------------

  /** The entry that an event acts on: the one it touches, or else the selected one. */
  function EntryOf(p: Popup, event: InputEvent): int {
    if event.touchIndex == None then p.selected else Clamp(event.touchIndex.value)
  }

  /** The user chose to resolve the displayed conflict later: by Back on any entry, or by Confirm on the third. */
  ghost predicate ChoosesLater(p: Popup, input: Input, id: Identifier) {
    && p.step == Displaying && p.conflict.id == Some(id) && input.Handling?
    && (input.event.action == Back || (input.event.action == Confirm && EntryOf(p, input.event) == 2))
  }

  /** A hold on one of the two overwriting entries completes. */
  ghost predicate CompletesHold(p: Popup, input: Input, entry: int, id: Identifier) {
    && p.step == Displaying && p.conflict.id == Some(id) && input.Updating? && p.selected == entry
    && p.hold.pressed && p.hold.held + Positive(input.dt) >= p.hold.duration
  }

  /** An action has been carried out, perhaps one that was only sent in the same update. */
  ghost predicate MayFinish(p: Popup, input: Input) {
    || ((input.Polling? || input.Updating?) && p.running && p.step != Loading)
    || (p.conflict.id.Some? && exists entry | 0 <= entry < 2 :: CompletesHold(p, input, entry, p.conflict.id.value))
  }

  /** The queue is asked for at the start, and again when an automatic popup has dealt with the last conflict. */
  ghost predicate AsksForQueue(p: Popup, input: Input) {
    input == Starting || (p.automatic && MayFinish(p, input))
  }

  /** Why an input hands this to the backend. */
  ghost predicate Chosen(p: Popup, input: Input, sent: Sent) {
    match sent
    case LoadConflicts => AsksForQueue(p, input)
    case ConflictAction(id, action) =>
      || (action == "upload-local" && CompletesHold(p, input, 0, id))
      || (action == "download-remote" && CompletesHold(p, input, 1, id))
      || (action == "resolve-later" && ChoosesLater(p, input, id))
  }

  lemma PollSends(p: Popup, poll: Poll)
    requires Sound(p)
    ensures p.PollOnce(poll).sent == p.sent
      || (p.automatic && p.running && p.step != Loading && p.PollOnce(poll).sent == p.sent + [LoadConflicts])
  {
  }

  lemma EventSends(p: Popup, event: InputEvent)
    requires Sound(p)
    ensures var q := p.HandleEvent(event);
      if p.conflict.id.Some? && ChoosesLater(p, Handling(event), p.conflict.id.value)
      then q.sent == p.sent + [ConflictAction(p.conflict.id.value, "resolve-later")] && q.step == Applying && q.error == ""
      else q.sent == p.sent
  {
  }

  lemma ElapseSends(p: Popup, dt: real, poll: Poll)
    requires Sound(p)
    ensures p.Elapse(dt).sent == p.sent ==> p.Elapse(dt).running == p.running && p.Elapse(dt).step == p.step
    ensures p.Elapse(dt).sent != p.sent ==>
      && p.conflict.id.Some? && (p.selected == 0 || p.selected == 1)
      && CompletesHold(p, Updating(dt, poll), p.selected, p.conflict.id.value)
      && p.Elapse(dt).sent == p.sent + [ConflictAction(p.conflict.id.value, OverwriteOf(p.selected))] && p.Elapse(dt).error == ""
  {
  }

  lemma UpdateSends(p: Popup, dt: real, poll: Poll, sent: Sent)
    requires Sound(p) && p.sent <= p.Update(dt, poll).sent && sent in p.Update(dt, poll).sent[|p.sent|..]
    ensures Chosen(p, Updating(dt, poll), sent)
  {
    var q := p.Elapse(dt);
    ElapseFacts(p, dt);
    ElapseSends(p, dt, poll);
    PollSends(q, poll);
    assert p.Update(dt, poll).sent == q.sent || p.Update(dt, poll).sent == q.sent + [LoadConflicts];
    if sent == LoadConflicts {
      assert q.automatic == p.automatic;
      assert p.Update(dt, poll).sent != p.sent;
    } else {
      assert q.sent != p.sent;
    }
  }

  /** Whatever one input hands to the backend was chosen by it. */
  lemma SentIsChosen(p: Popup, input: Input, sent: Sent)
    requires Sound(p) && p.sent <= Next(p, input).sent && sent in Next(p, input).sent[|p.sent|..]
    ensures Chosen(p, input, sent)
  {
    match input
    case Starting =>
    case Selecting(index) => SelectFacts(p, index);
    case Handling(event) => EventSends(p, event);
    case Updating(dt, poll) => UpdateSends(p, dt, poll, sent);
    case Polling(outcome) => PollSends(p, outcome);
    case Cancelling =>
  }

  /** Confirm on one of the two overwriting entries begins a hold, or goes on with the one in progress, and does nothing else. */
  lemma ConfirmBegins(p: Popup, event: InputEvent)
    requires Sound(p) && p.step == Displaying && p.conflict.id.Some? && event.action == Confirm
    requires EntryOf(p, event) == 0 || EntryOf(p, event) == 1
    ensures var q, entry := p.HandleEvent(event), EntryOf(p, event);
      && Holding(q, p.conflict, entry, if entry == p.selected then p.hold.held else 0.0)
      && q == p.(selected := entry, hold := q.hold) && !q.hold.confirmed
  {
    if event.touchIndex != None { SelectFacts(p, event.touchIndex.value); }
  }

  // ---- the queue --------------------------------------------------------------------------------

  function IsDictionary(): Item -> bool {
    (item: Item) => item.Dictionary?
  }

  lemma {:induction false} DictionariesInOrder(items: seq<Item>)
    ensures var kept := Filter(IsDictionary(), items);
      |Dictionaries(items)| == |kept| && forall k | 0 <= k < |kept| :: kept[k] == Dictionary(Dictionaries(items)[k])
  {
    if items != [] { DictionariesInOrder(items[1..]); }
  }

  /**
   * The answer to the request for the queue: its dictionaries in order, of which the first is shown; an answer without
   * a list ends the popup.
   */
  lemma AfterLoading(p: Popup, answer: Option<seq<Item>>)
    requires p.step == Loading && p.running
    ensures var q := p.PollOnce(Succeeded(answer));
      && !q.running && q.sent == p.sent
      && match answer
         case None => q.step == Done && q.error == "Unexpected SaveSync conflict response." && q.conflicts == p.conflicts
         case Some(items) =>
           var kept := Filter(IsDictionary(), items);
           && |q.conflicts| == |kept| && (forall k | 0 <= k < |kept| :: kept[k] == Dictionary(q.conflicts[k]))
           && q.step == (if kept == [] then Done else Displaying)
           && (kept != [] ==> kept[0] == Dictionary(q.conflict) && q.selected == 0 && !q.hold.pressed && q.hold.held == 0.0)
  {
    if answer.Some? { DictionariesInOrder(answer.value); }
  }

  /** An update raises exactly if it completes a hold on a conflict that has details but no identifier to send. */
  lemma RaisesExactlyWithoutIdentifier(p: Popup, dt: real)
    requires Sound(p)
    ensures p.ElapseRaises(dt) <==>
      && p.step == Displaying && (p.selected == 0 || p.selected == 1)
      && (p.hold.confirmed || (p.hold.pressed && p.hold.held + Positive(dt) >= p.hold.duration))
      && p.conflict.id == None && p.conflict.hasDetails
  {
  }

  /** A failed operation says why, drops the hold, and goes back to the conflict on display if there is one. */
  lemma AfterFailure(p: Popup, error: string)
    requires p.running
    ensures var q := p.PollOnce(Failed(error));
      && q.error == (if error != "" then error else "SaveSync conflict operation failed.")
      && q.conflict == p.conflict && q.conflicts == p.conflicts && q.selected == p.selected && q.sent == p.sent && !q.running
      && (q.step == Displaying <==> p.conflict != NO_CONFLICT) && (q.step != Displaying ==> q.step == Done)
      && !q.hold.pressed && q.hold.held == 0.0
  {
    assert p.conflict.IsEmpty() <==> p.conflict == NO_CONFLICT;
  }

  function NotCalled(id: string): Conflict -> bool {
    (c: Conflict) => c.id != Some(Text(id))
  }

  lemma {:induction false} WithoutKeepsOthers(conflicts: seq<Conflict>, id: string)
    ensures Without(conflicts, id) == Filter(NotCalled(id), conflicts)
  {
    if conflicts != [] { WithoutKeepsOthers(conflicts[1..], id); }
  }

  /** What a successful action leaves in the queue, in order, and what the popup does next. */
  lemma AfterAction(p: Popup, answer: Option<seq<Item>>)
    requires p.step == Applying && p.running && p.conflict.id.Some?
    ensures var q := p.PollOnce(Succeeded(answer));
      && q.conflicts == Filter(NotCalled(p.conflict.id.value.text), p.conflicts)
      && (forall c :: c in q.conflicts <==> c in p.conflicts && c.id != Some(Text(p.conflict.id.value.text)))
      && (q.step == Displaying ==> q.conflicts != [] && q.conflict == q.conflicts[0] && q.selected == 0 && q.sent == p.sent)
      && (q.step != Displaying ==> q.conflict == NO_CONFLICT && q.conflicts == [])
      && (q.step == if q.conflicts != [] then Displaying else if p.automatic then Loading else Done)
      && (q.step == Loading ==> q.sent == p.sent + [LoadConflicts] && q.running)
  {
    WithoutKeepsOthers(p.conflicts, p.conflict.id.value.text);
    FilterElements(NotCalled(p.conflict.id.value.text), p.conflicts);
  }

  /**
   * An applied conflict leaves the queue and takes no other with it, whatever the queue holds, if and only if its
   * identifier is text: any other identifier is compared with the text that `str` makes of it.
   */
  lemma AppliedConflictAloneIsDropped(p: Popup, answer: Option<seq<Item>>)
    requires p.step == Applying && p.running && p.conflict.id.Some? && p.conflict in p.conflicts
    ensures var q := p.PollOnce(Succeeded(answer));
      p.conflict.id.value.Text? <==> forall c :: c in q.conflicts <==> c in p.conflicts && c.id != p.conflict.id
  {
    AfterAction(p, answer);
    var q := p.PollOnce(Succeeded(answer));
    if p.conflict.id.value.Other? {
      assert p.conflict in q.conflicts;
    }
  }

  // ---- the main result -----------------------------------------------------------------------

  /**
   * From input `j`, which pressed Confirm on what is displayed, up to input `n` that same conflict and selection stayed
   * on display and Confirm was not released.
   */
  ghost predicate HeldSince(states: seq<Popup>, inputs: seq<Input>, j: nat, n: nat) {
    && j < n <= |inputs| && |states| == |inputs| + 1
    && states[j].step == Displaying && states[j].conflict == states[n].conflict
    && inputs[j].Handling? && inputs[j].event.action == Confirm
    && (forall k | j < k < n :: !Releases(inputs[k]))
    && (forall k | j < k <= n :: Same(states[k], states[n]))
  }

  /** The same conflict and selection are on display. */
  predicate Same(p: Popup, q: Popup) {
    p.step == Displaying && p.conflict == q.conflict && p.selected == q.selected
  }

  /** Whenever a hold is in progress it has a beginning, and the time held is the time that has passed since. */
  lemma {:induction false} HoldHasBeginning(states: seq<Popup>, inputs: seq<Input>, n: nat) returns (j: nat)
    requires IsRun(states, inputs) && Sound(states[0]) && !states[0].hold.pressed && n <= |inputs|
    requires states[n].step == Displaying && states[n].hold.pressed
    ensures j < n <= |inputs| && HeldSince(states, inputs, j, n)
    ensures states[n].hold.held == Elapsed(inputs, j + 1, n)
  {
    RunIsSound(states, inputs, n - 1);
    assert StepAt(states, inputs, n - 1);
    HoldingStep(states[n - 1], inputs[n - 1]);
    if GoesOn(states[n - 1], inputs[n - 1], states[n]) {
      j := HoldHasBeginning(states, inputs, n - 1);
    } else {
      j := n - 1;
    }
  }

  /** What one input handed to the backend. */
  ghost function SentBy(states: seq<Popup>, n: nat): seq<Sent>
    requires n + 1 < |states|
  {
    if |states[n].sent| <= |states[n + 1].sent| then states[n + 1].sent[|states[n].sent|..] else []
  }

  /**
   * In every run an overwriting action is sent only for the displayed conflict and the selected action, and only after
   * Confirm was held on them for the whole duration: no release, no other selection, no other conflict in between.
   */
  lemma OverwritesAreHeldFor(automatic: bool, duration: real, states: seq<Popup>, inputs: seq<Input>, n: nat, sent: Sent) returns (j: nat)
    requires IsRun(states, inputs) && states[0] == Opened(automatic, duration) && n < |inputs|
    requires sent in SentBy(states, n) && Overwrites(sent)
    ensures states[n].step == Displaying && states[n].conflict.id.Some?
    ensures (states[n].selected == 0 && sent == ConflictAction(states[n].conflict.id.value, "upload-local"))
      || (states[n].selected == 1 && sent == ConflictAction(states[n].conflict.id.value, "download-remote"))
    ensures j < n && HeldSince(states, inputs, j, n) && inputs[n].Updating? && Elapsed(inputs, j + 1, n + 1) >= duration
  {
    RunIsSound(states, inputs, n);
    assert StepAt(states, inputs, n);
    OverwriteStep(states[n], inputs[n], sent);
    j := HoldHasBeginning(states, inputs, n);
  }

  /**
   * In every run, what an input hands to the backend it chose: `upload-local` by completing a hold on the first entry,
   * `download-remote` on the second, `resolve-later` by Back or by Confirm on the third, each for the conflict on
   * display; the queue at the start or after the last conflict.
   */
  lemma EverythingSentIsChosen(automatic: bool, duration: real, states: seq<Popup>, inputs: seq<Input>, n: nat, sent: Sent)
    requires IsRun(states, inputs) && states[0] == Opened(automatic, duration) && n < |inputs|
    requires sent in SentBy(states, n)
    ensures Chosen(states[n], inputs[n], sent)
  {
    RunIsSound(states, inputs, n);
    assert StepAt(states, inputs, n);
    OverwriteStep(states[n], inputs[n], sent);
    SentIsChosen(states[n], inputs[n], sent);
  }

  /** A sound state in which Confirm is held on a conflict that can be sent. */
  ghost predicate Holding(p: Popup, conflict: Conflict, selected: int, held: real) {
    && Sound(p) && p.step == Displaying && p.hold.pressed && p.conflict == conflict && p.selected == selected
    && p.hold.held == held && conflict.id.Some?
  }

  /** One update of a hold: it sends its action exactly when the time is up, and goes on otherwise. */
  lemma HoldingUpdate(p: Popup, dt: real, poll: Poll)
    requires Holding(p, p.conflict, p.selected, p.hold.held) && !p.hold.confirmed
    ensures var q, total := p.Update(dt, poll), p.hold.held + Positive(dt);
      if total < p.hold.duration then Holding(q, p.conflict, p.selected, total) && !q.hold.confirmed && q.sent == p.sent
      else p.sent + [ConflictAction(p.conflict.id.value, OverwriteOf(p.selected))] <= q.sent
  {
    ElapseFacts(p, dt);
    PollFacts(p.Elapse(dt), poll);
  }

  /** An input that neither lets go of the hold nor changes what it is on. */
  predicate Harmless(selected: int, input: Input) {
    match input
    case Starting => false
    case Selecting(index) => Clamp(index) == selected
    case Handling(event) => HarmlessEvent(selected, event)
    case _ => true
  }

  predicate HarmlessEvent(selected: int, event: InputEvent) {
    && (event.touchIndex == None || Clamp(event.touchIndex.value) == selected)
    && match event.action
       case Up => Clamp(selected - 1) == selected
       case Down => Clamp(selected + 1) == selected
       case Back => false
       case ConfirmReleased => false
       case _ => true
  }

  lemma HoldingEvent(p: Popup, event: InputEvent)
    requires Holding(p, p.conflict, p.selected, p.hold.held) && HarmlessEvent(p.selected, event)
    ensures p.HandleEvent(event) == p
  {
    if event.touchIndex != None { assert p.Select(event.touchIndex.value) == p; }
    assert p.HandleEvent(event) == p.HandleEvent(InputEvent(event.action, None));
    assert p.hold.On(event.action) == p.hold;
  }

  /** One harmless input: unless it completes the hold, it goes on with the time that has passed, and nothing is sent. */
  lemma HoldingInput(p: Popup, input: Input)
    requires Holding(p, p.conflict, p.selected, p.hold.held) && !p.hold.confirmed && Harmless(p.selected, input)
    requires p.hold.held + Passed(input) < p.hold.duration
    ensures var q := Next(p, input);
      Holding(q, p.conflict, p.selected, p.hold.held + Passed(input)) && !q.hold.confirmed && q.sent == p.sent
  {
    match input
    case Updating(dt, poll) => HoldingUpdate(p, dt, poll);
    case Polling(outcome) => PollFacts(p, outcome);
    case Selecting(index) => SelectFacts(p, index);
    case Handling(event) => HoldingEvent(p, event);
    case _ =>
  }

  /**
   * Held on through any inputs that neither let go of it nor change what it is on, the action is sent by the very
   * update in which the time is up, and by none before.
   */
  lemma {:induction false} FullHoldIsSent(states: seq<Popup>, inputs: seq<Input>, n: nat)
    requires IsRun(states, inputs) && n < |inputs| && (forall k | 0 <= k <= n :: Harmless(states[0].selected, inputs[k]))
    requires var p := states[0]; Holding(p, p.conflict, p.selected, p.hold.held) && !p.hold.confirmed
    requires forall k | 0 <= k <= n :: states[0].hold.held + Elapsed(inputs, 0, k) < states[0].hold.duration
    ensures var p := states[0];
      && states[n].sent == p.sent && !states[n].hold.confirmed && states[n].hold.duration == p.hold.duration
      && Holding(states[n], p.conflict, p.selected, p.hold.held + Elapsed(inputs, 0, n))
      && (p.hold.held + Elapsed(inputs, 0, n + 1) >= p.hold.duration ==>
            p.sent + [ConflictAction(p.conflict.id.value, if p.selected == 0 then "upload-local" else "download-remote")] <= states[n + 1].sent)
  {
    if n > 0 {
      FullHoldIsSent(states, inputs, n - 1);
      assert StepAt(states, inputs, n - 1);
      HoldingInput(states[n - 1], inputs[n - 1]);
      NextIsSound(states[n - 1], inputs[n - 1]);
    }
    assert StepAt(states, inputs, n);
    if inputs[n].Updating? { HoldingUpdate(states[n], inputs[n].dt, inputs[n].poll); }
  }
}
