/**
 The app's session: a name entry screen, an option editing screen and a
 decision screen, driven by the user's events. Each handler is a pure
 function from state to state; `Step` applies an event only on the screen
 that shows the control producing it.
 */
module Session {
  import opened Text
  import opened Options
  import opened Selector

  /** A JavaScript value that is either `null` or a value. */
  datatype Nullable<T> = Null | NonNull(value: T)

  /** Everything the app keeps: both text fields, the accepted name, the list and the pick. */
  datatype State = State(
    nameInput: string,
    userName: string,
    input: string,
    options: seq<Option>,
    chosen: Nullable<string>)

  datatype Screen = Entry | Editing | Decision

  /** What the user can do. `id` stands for the clock reading taken on add,
      `draw` for the random number behind the pick. */
  datatype Event =
    | NameTyped(nameText: string)
    | NameSubmitted
    | OptionTyped(optionText: string)
    | AddPressed(id: string)
    | StarPressed(starIndex: int)
    | TrashPressed(trashIndex: int)
    | DecidePressed(draw: nat)
    | ChooseAgainPressed

  /** Every field starts empty: the entry screen shows and the invariant holds. */
  function Init(): (r: State)
    ensures r.nameInput == "" && r.input == ""
    ensures ScreenOf(r) == Entry
    ensures Inv(r)
  {
    State("", "", "", [], Null)
  }

  /** JavaScript truthiness of a nullable string: non-null and non-empty. */
  predicate Truthy(c: Nullable<string>) {
    c.NonNull? && c.value != ""
  }

  /** The entry screen while no name is held, then the pick if there is one, else the list. */
  function ScreenOf(s: State): Screen {
    if s.userName == "" then Entry
    else if Truthy(s.chosen) then Decision
    else Editing
  }

  /** "Decide" is offered on the list screen once it holds more than one entry. */
  predicate DecideOffered(s: State) {
    ScreenOf(s) == Editing && |s.options| > 1
  }

  /**
   The name handler: a field that is not all whitespace is accepted, trimmed,
   as the name; otherwise nothing happens. Nothing but the name changes.
   */
  function HandleNameSubmit(s: State): (r: State)
    ensures r.userName != s.userName ==> !AllSpace(s.nameInput) && WellFormedText(r.userName)
    ensures AllSpace(s.nameInput) ==> r == s
    ensures !AllSpace(s.nameInput) ==> r.userName == Trim(s.nameInput)
    ensures r.(userName := s.userName) == s
  {
    if |Trim(s.nameInput)| > 0 then
      TrimIdempotent(s.nameInput);
      s.(userName := Trim(s.nameInput))
    else
      s
  }

  /**
   The add handler on the session's list and field: an accepted add appends
   the trimmed text under `id` and clears the field, a rejected one changes nothing.
   */
  function AddOptionStep(s: State, id: string): (r: State)
    ensures |r.options| == |s.options| + (if AllSpace(s.input) then 0 else 1)
    ensures r.options[..|s.options|] == s.options
    ensures !AllSpace(s.input) ==> r.input == "" && r.options[|s.options|] == Option(Trim(s.input), false, id)
    ensures AllSpace(s.input) ==> r == s
    ensures Pool(r.options) == Pool(s.options) + (if AllSpace(s.input) then [] else [Trim(s.input)])
    ensures r.(options := s.options, input := s.input) == s
  {
    var e := AddOption(s.options, s.input, id);
    AddOptionPool(s.options, s.input, id);
    s.(options := e.options, input := e.input)
  }

  /** The star button of entry `index`: that entry's flag flips and nothing else changes. */
  function ToggleBoostStep(s: State, index: int): (r: State)
    ensures |r.options| == |s.options|
    ensures 0 <= index < |s.options| ==>
              && r.options[index] == Flip(s.options[index])
              && forall j :: 0 <= j < |s.options| && j != index ==> r.options[j] == s.options[j]
    ensures !(0 <= index < |s.options|) ==> r == s
    ensures 0 <= index < |s.options| ==>
              |Pool(r.options)| == |Pool(s.options)| + (if s.options[index].boosted then -1 else 1)
    ensures r.(options := s.options) == s
  {
    var r := s.(options := ToggleBoost(s.options, index));
    assert 0 <= index < |s.options| ==>
             |Pool(r.options)| == |Pool(s.options)| + (if s.options[index].boosted then -1 else 1) by {
      if 0 <= index < |s.options| {
        ToggleBoostWeight(s.options, index, "");
      }
    }
    r
  }

  /** The trash button of entry `index`: exactly that entry is cut out of the list. */
  function RemoveStep(s: State, index: int): (r: State)
    ensures 0 <= index < |s.options| ==> r.options == s.options[..index] + s.options[index + 1..]
    ensures 0 <= index < |s.options| ==> |r.options| == |s.options| - 1
    ensures !(0 <= index < |s.options|) ==> r == s
    ensures forall t :: t in Pool(r.options) ==> t in Pool(s.options)
    ensures r.(options := s.options) == s
  {
    var r := s.(options := RemoveAt(s.options, index));
    assert forall t :: t in Pool(r.options) ==> t in Pool(s.options) by {
      forall t | t in Pool(r.options)
        ensures t in Pool(s.options)
      {
        if 0 <= index < |s.options| {
          PoolCount(r.options, t);
          PoolCount(s.options, t);
          RemoveAtWeight(s.options, index, t);
        }
      }
    }
    r
  }

  /**
   The pick handler with drawn pool index `k`: the pick becomes the text of
   an entry of the list, and with a name held the decision screen shows.
   */
  function PickChosenStep(s: State, k: nat): (r: State)
    requires k < |Pool(s.options)|
    ensures r.chosen == NonNull(Pool(s.options)[k])
    ensures exists j :: 0 <= j < |s.options| && r.chosen.value == s.options[j].text
    ensures s.userName != "" && WellFormed(s.options) ==> ScreenOf(r) == Decision
    ensures r.(chosen := s.chosen) == s
  {
    s.(chosen := NonNull(PickChosen(s.options, k)))
  }

  /** "Choose again": the pick is cleared and the list screen returns, the list untouched. */
  function ResetChoice(s: State): (r: State)
    ensures r.chosen == Null
    ensures r.options == s.options
    ensures s.userName != "" ==> ScreenOf(r) == Editing
    ensures r.(chosen := s.chosen) == s
  {
    s.(chosen := Null)
  }

  /** Whether the control producing `e` is on the screen `s` shows. */
  predicate Offered(s: State, e: Event) {
    match e
    case NameTyped(_) => ScreenOf(s) == Entry
    case NameSubmitted => ScreenOf(s) == Entry
    case OptionTyped(_) => ScreenOf(s) == Editing
    case AddPressed(_) => ScreenOf(s) == Editing
    case StarPressed(_) => ScreenOf(s) == Editing
    case TrashPressed(_) => ScreenOf(s) == Editing
    case DecidePressed(_) => DecideOffered(s)
    case ChooseAgainPressed => ScreenOf(s) == Decision
  }

  /**
   One user event, applied only on the screen that offers its control: an
   event whose control is not shown leaves the state unchanged. Every event
   keeps the invariant, and a name once held is never changed.
   */
  function Step(s: State, e: Event): (r: State)
    ensures !Offered(s, e) ==> r == s
    ensures Inv(s) ==> Inv(r)
    ensures s.userName != "" ==> r.userName == s.userName
  {
    match e
    case NameTyped(t) => if ScreenOf(s) == Entry then s.(nameInput := t) else s
    case NameSubmitted => if ScreenOf(s) == Entry then HandleNameSubmit(s) else s
    case OptionTyped(t) => if ScreenOf(s) == Editing then s.(input := t) else s
    case AddPressed(id) => if ScreenOf(s) == Editing then AddOptionStep(s, id) else s
    case StarPressed(i) => if ScreenOf(s) == Editing then ToggleBoostStep(s, i) else s
    case TrashPressed(i) =>
      if ScreenOf(s) == Editing then
        RemoveAtWellFormed(s.options, i);
        RemoveStep(s, i)
      else s
    case DecidePressed(draw) =>
      if DecideOffered(s) then
        PoolNonEmpty(s.options);
        var k := draw % |Pool(s.options)|;
        PickKeepsInv(s, k);
        PickChosenStep(s, k)
      else s
    case ChooseAgainPressed => if ScreenOf(s) == Decision then ResetChoice(s) else s
  }

  /** A pick is an entry's text, so it is well formed and in the pool. */
  lemma PickKeepsInv(s: State, k: nat)
    requires k < |Pool(s.options)|
    ensures Inv(s) ==> Inv(PickChosenStep(s, k))
  {
    var c := PickChosenStep(s, k).chosen.value;
    var j :| 0 <= j < |s.options| && c == s.options[j].text;
    InPoolIff(s.options, c);
  }

  /** The state after a sequence of events, oldest first. */
  function Run(s: State, events: seq<Event>): State
    decreases |events|
  {
    if |events| == 0 then s else Run(Step(s, events[0]), events[1..])
  }

  /**
   What holds in every state the app can reach: entries and name are
   trimmed and non-empty, nothing is listed or picked before a name is held,
   and a pick is a non-empty text that is still in the pool.
   */
  predicate Inv(s: State) {
    && WellFormed(s.options)
    && (s.userName == "" ==> s.options == [] && s.chosen == Null)
    && (s.userName != "" ==> WellFormedText(s.userName))
    && (s.chosen.NonNull? ==> WellFormedText(s.chosen.value) && s.chosen.value in Pool(s.options))
  }

  /** Every state reached from the start satisfies the invariant. */
  lemma {:induction false} RunInv(s: State, events: seq<Event>)
    requires Inv(s)
    ensures Inv(Run(s, events))
    decreases |events|
  {
    if |events| > 0 {
      RunInv(Step(s, events[0]), events[1..]);
    }
  }

  /** In a reachable state past the entry screen, the decision screen shows exactly while a pick is held. */
  lemma DecisionScreenIff(s: State)
    requires Inv(s) && s.userName != ""
    ensures ScreenOf(s) == Decision <==> s.chosen.NonNull?
  {
  }

  /** Once a name is held it never changes, so the entry screen never returns. */
  lemma {:induction false} NameIsFinal(s: State, events: seq<Event>)
    requires s.userName != ""
    ensures Run(s, events).userName == s.userName
    ensures ScreenOf(Run(s, events)) != Entry
    decreases |events|
  {
    if |events| > 0 {
      NameIsFinal(Step(s, events[0]), events[1..]);
    }
  }

  /**
   The decide button changes the pick exactly when it is offered: with at
   most one entry, or off the list screen, pressing it does nothing.
   */
  lemma DecideGated(s: State, draw: nat)
    requires Inv(s)
    ensures Step(s, DecidePressed(draw)) != s <==> DecideOffered(s)
    ensures DecideOffered(s) ==> ScreenOf(Step(s, DecidePressed(draw))) == Decision
  {
    if DecideOffered(s) {
      assert s.chosen == Null;
    }
  }
}
