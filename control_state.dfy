/** The selection state machine of AirSegmentedControl, as values.

    The control's view objects are reduced to the data the selection logic
    reads and writes: each button is a record of its tag and its selected
    flag, each underline-centring constraint is its priority, and the
    `valueChanged` action is a counter. The functions below state what each
    operation does to a whole `State`; the class in module AirSegmented
    is proved to follow them, and module ControlProperties proves what
    they promise. */
module ControlState {

  /** Priority of a centring constraint that is not in force. */
  const Low: int := 250
  /** Priority of the centring constraint that places the underline. */
  const High: int := 750

  /** The part of AirSegmentedControlStyle that the selection logic reads;
      the colours and the animation time only affect presentation. */
  datatype Style = Style(shouldIgnoreDuplicateInputs: bool)

  /** The style a fresh control holds: duplicate inputs are ignored. */
  const DefaultStyle: Style := Style(true)

  /** A button of the control: its tag is the index of its segment. */
  datatype Button = Button(tag: int, isSelected: bool)

  /** Where a button sits in the left-to-right chain built by setupView. */
  datatype Position = First | Middle | Last

  /** Everything the selection logic of one control reads or writes. */
  datatype State = State(
    segments: seq<string>,
    style: Style,
    selectedSegmentIndex: int,
    buttons: seq<Button>,
    priorities: seq<int>,
    events: nat)

  /** A control that has not been configured yet. */
  function Initial(): State {
    State([], DefaultStyle, 0, [], [], 0)
  }

  /** The switch that decides how the button at `index` of `count` is
      chained to its neighbours. Its `default` branch aborts the program;
      the `assert false` there proves that no index the loop produces
      reaches it. The middle range `1..<count-1` is only formed when
      `index != 0`, so `count >= 2` and the range is well formed. */
  function Classify(index: int, count: int): (p: Position)
    requires 0 <= index < count
    ensures p == First <==> index == 0
    ensures p == Last <==> 0 < index && index == count - 1
    ensures p == Middle <==> 0 < index < count - 1
  {
    if index == 0 then First
    else if 1 <= index < count - 1 then Middle
    else if index == count - 1 then Last
    else assert false; Last
  }

  /** The chain of positions for all `count` buttons, in order. */
  function Chain(count: nat): seq<Position> {
    seq(count, i requires 0 <= i < count => Classify(i, count))
  }

  /** The priorities constrainBottomLine leaves in a list of `len`
      constraints: only the one at position `toIndex` is raised. */
  function Centred(len: nat, toIndex: int): seq<int> {
    seq(len, k => if k == toIndex then High else Low)
  }

  /** `n` constraints at the priority setupView first gives them. */
  function Lows(n: nat): seq<int> {
    seq(n, k => Low)
  }

  /** The buttons after select's loop: each is selected exactly when its
      tag equals `index`; the loop runs over every button of the control. */
  function Reselected(bs: seq<Button>, index: int): seq<Button> {
    seq(|bs|, k requires 0 <= k < |bs| => bs[k].(isSelected := bs[k].tag == index))
  }

  /** The buttons one setupView pass creates for `n` segments while the
      selected index is `sel`. */
  function NewButtons(n: nat, sel: int): seq<Button> {
    seq(n, i => Button(i, i == sel))
  }

  /** The constraint list after one setupView pass over `n` segments that
      started from `prior`. When the selected index is met during the pass,
      constrainBottomLine runs over the whole list built so far (earlier entries
      included), and the entries appended after it start at Low. */
  function SetupPriorities(prior: seq<int>, n: nat, sel: int): seq<int> {
    if 0 <= sel < n then Centred(|prior| + n, sel) else prior + Lows(n)
  }

  /** select(at:animated:): the index is stored as given, every button is
      reselected, the underline constraints are re-prioritised and one
      `valueChanged` is sent. `animated` only chooses how layout is
      animated, so it does not appear here. */
  function SelectSpec(s: State, index: int): State {
    s.(selectedSegmentIndex := index,
       buttons := Reselected(s.buttons, index),
       priorities := Centred(|s.priorities|, index),
       events := s.events + 1)
  }

  /** buttonTapped on a button with tag `tag`. */
  function TapSpec(s: State, tag: int): State {
    if s.style.shouldIgnoreDuplicateInputs && s.selectedSegmentIndex == tag then s
    else SelectSpec(s, tag)
  }

  /** setupView: one button and one constraint per segment are appended;
      nothing already there is removed. */
  function SetupSpec(s: State): State {
    s.(buttons := s.buttons + NewButtons(|s.segments|, s.selectedSegmentIndex),
       priorities := SetupPriorities(s.priorities, |s.segments|, s.selectedSegmentIndex))
  }

  /** configure(with:style:): store both inputs, then run setupView. The
      selected index is kept, not reset. */
  function ConfigureSpec(s: State, segments: seq<string>, style: Style): State {
    SetupSpec(s.(segments := segments, style := style))
  }

  /** Number of selected buttons. */
  function SelectedCount(bs: seq<Button>): nat {
    if |bs| == 0 then 0
    else SelectedCount(bs[..|bs| - 1]) + (if bs[|bs| - 1].isSelected then 1 else 0)
  }

  /** Number of constraints at the High priority. */
  function ActiveCount(ps: seq<int>): nat {
    if |ps| == 0 then 0
    else ActiveCount(ps[..|ps| - 1]) + (if ps[|ps| - 1] == High then 1 else 0)
  }

  /** The invariant the control keeps: one constraint per button, every
      priority Low or High, and at most one constraint High. */
  predicate Consistent(s: State) {
    |s.priorities| == |s.buttons|
    && (forall k :: 0 <= k < |s.priorities| ==> s.priorities[k] == Low || s.priorities[k] == High)
    && ActiveCount(s.priorities) <= 1
  }
}
