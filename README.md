# AirSegmentedControl: the selection state machine

AirSegmentedControl is a segmented selector for iOS. It shows a row of
buttons, one per segment title, and an underline under the selected one.
It sends a `valueChanged` action when a segment is selected. Under the
view code sits a small state machine. This project models that machine in
Dafny and proves what it promises.

The model keeps what the selection logic reads and writes:

- `segments`: the titles last passed to `configure`.
- `style`: only its `shouldIgnoreDuplicateInputs` flag.
- `selectedSegmentIndex`.
- `buttons`: every button ever added, as a record of `tag` and `isSelected`.
- `priorities`: the priority (250 or 750) of each underline-centring
  constraint, in the order `underlineConstraints` holds them.
- `events`: how many `valueChanged` actions were sent.

Files:

- `control_state.dfy` (module `ControlState`): the state as a value and
  one function per operation (`SelectSpec`, `TapSpec`, `SetupSpec`,
  `ConfigureSpec`). It also holds the layout switch `Classify` and the
  invariant `Consistent`: one constraint per button, every priority 250
  or 750, at most one at 750.
- `air_segmented_control.dfy` (module `AirSegmented`): class
  `AirSegmentedControl`, whose methods update its fields in place with the
  same loops as the source. Each method is proved to leave the state its
  `ControlState` function gives, and to keep `Consistent`.
- `control_properties.dfy` (module `ControlProperties`): lemmas about
  those functions.

Behaviour of the code worth knowing:

- `configure` does not clear the earlier buttons or constraints, and it
  does not reset `selectedSegmentIndex`. Each call appends one more batch.
- `constrainBottomLine` compares the POSITION of each constraint in the
  whole list with the index, not a button's tag. On a fresh control
  configured twice (selected index 0, below the first batch's size), the
  constraint in force therefore belongs to the first batch, and two
  buttons are selected (`ConfigureTwice`). When the selected index is at
  least the first batch's size, the raised position can fall in a later
  batch instead.
- Exactly one button is selected after a single `configure` and a
  `select` of an index inside `segments`; none is selected after a
  `select` of an index outside `segments` (`SelectAfterSingleConfigure`).
  In general, `select(i)` selects every button whose tag is `i`, so none
  when no button has that tag (`SelectUnknownTag`), and it raises the
  constraint at list position `i`, so none when `i` is not a position of
  the whole list. After several `configure` calls an index outside the
  current `segments` can still select an old button and raise a
  constraint.
- `shouldIgnoreDuplicateInputs` affects taps only. `buttonTapped` drops a
  tap on the selected segment, but `select(at:)` called with the current
  index still sends one `valueChanged` (`Select` always adds one event,
  `SelectTwice`).
- With one segment, index 0 takes the `case 0` branch
  (AirSegmentedControl/AirSegmentedControl.swift:87-90). That branch pins
  the button to the leading edge only; no constraint pins its trailing
  edge.
- Empty segment lists and out-of-range indices are accepted, not
  rejected. The model has no error path because the code has none.

## Model

| member | source | states |
|---|---|---|
| `AirSegmented.AirSegmentedControl.constructor` | AirSegmentedControl/AirSegmentedControl.swift:35-44 | a new control has the default style (duplicates ignored), no segments, index 0, no buttons, no constraints and no events |
| `AirSegmented.AirSegmentedControl.Configure` | AirSegmentedControl/AirSegmentedControl.swift:53-58 | segments and style are stored exactly as passed, the selected index is kept, and the state is that of setupView run on top of the old one; the at-most-one-active invariant is kept |
| `AirSegmented.AirSegmentedControl.SetupView` | AirSegmentedControl/AirSegmentedControl.swift:60-115 | the loop appends button `i` (selected iff `i` is the selected index) and a 250 constraint for each segment, calls the layout switch on an index it accepts, and re-centres the whole list when it meets the selected index; the invariant is kept |
| `AirSegmented.AirSegmentedControl.ButtonTapped` | AirSegmentedControl/AirSegmentedControl.swift:117-122 | a tap on the selected tag with duplicates ignored changes nothing and sends no event; every other tap has exactly the effect of `select` on the button's tag |
| `AirSegmented.AirSegmentedControl.Select` | AirSegmentedControl/AirSegmentedControl.swift:129-143 | the index is stored, the button list keeps its length and tags, each button is selected exactly when its tag equals the index, one event is sent, and exactly one constraint is at 750 when the index is a list position, none otherwise |
| `AirSegmented.AirSegmentedControl.ConstrainBottomLine` | AirSegmentedControl/AirSegmentedControl.swift:145-163 | the list keeps its length; constraint `k` is at 750 exactly when `k` is the target, otherwise at 250; nothing else changes |
| `ControlState.Classify` | AirSegmentedControl/AirSegmentedControl.swift:86-101 | for every index the loop can produce, the switch takes one of its three cases and never the aborting default; First iff index 0, Last iff the last of two or more, Middle iff strictly between |
| `ControlProperties.ChainShape` | AirSegmentedControl/AirSegmentedControl.swift:86-101 | the chain is First, then Middles, then Last; a single segment is just First; setupView's loop meets exactly these positions in order |
| `ControlProperties.ActiveCountCentred` | AirSegmentedControl/AirSegmentedControl.swift:148-154 | after constrainBottomLine exactly one constraint is active when the target is a list position and none when it is out of range |
| `ControlProperties.SelectedCountNewButtons` | AirSegmentedControl/AirSegmentedControl.swift:72-111 | one setupView pass selects exactly one new button when the selected index is in range, none otherwise |
| `ControlProperties.InitialConsistent` | AirSegmentedControl/AirSegmentedControl.swift:41-44 | a new control satisfies the invariant |
| `ControlProperties.SelectConsistent` | AirSegmentedControl/AirSegmentedControl.swift:129-154 | select keeps the invariant and leaves exactly one active constraint for an in-range position, none otherwise |
| `ControlProperties.TapConsistent` | AirSegmentedControl/AirSegmentedControl.swift:117-122 | a tap keeps the invariant |
| `ControlProperties.SetupConsistent` | AirSegmentedControl/AirSegmentedControl.swift:103-111 | setupView keeps the invariant, whether or not it meets the selected index |
| `ControlProperties.ConfigureConsistent` | AirSegmentedControl/AirSegmentedControl.swift:53-58 | configure keeps the invariant |
| `ControlProperties.ConfigureAppends` | AirSegmentedControl/AirSegmentedControl.swift:53-114 | configure stores its inputs, keeps index and events, appends exactly one button and one constraint per segment, keeps every earlier button, and tags the new ones 0..N-1 in order, selected iff the tag is the index |
| `ControlProperties.SetupOutOfRangeKeepsPriorities` | AirSegmentedControl/AirSegmentedControl.swift:103-111 | when the selected index is not a new segment, earlier priorities are untouched, new ones are 250 and no button is newly selected |
| `ControlProperties.FirstConfigureSelection` | AirSegmentedControl/AirSegmentedControl.swift:72-111 | on a control without buttons, configure selects exactly the button at the selected index, and the constraint at that position is the only one at 750; no button and no constraint when the index is out of range |
| `ControlProperties.SelectAfterSingleConfigure` | AirSegmentedControl/AirSegmentedControl.swift:129-154 | after one configure and `select(i)`: the index is `i`, one event was sent, exactly one button and one constraint are active for `0 <= i < N`, and none for any other `i` |
| `ControlProperties.SelectUnknownTag` | AirSegmentedControl/AirSegmentedControl.swift:132-140 | when no button carries the tag `i`, `select(i)` leaves no button selected, whatever was selected before |
| `ControlProperties.SelectTwice` | AirSegmentedControl/AirSegmentedControl.swift:129-143 | selecting the same index twice gives the state of one select with two events sent |
| `ControlProperties.SelectAllEvents` | AirSegmentedControl/AirSegmentedControl.swift:141-142 | a run of selects sends one event per call whether or not the index changes, ends on the last index given, and changes no list length |
| `ControlProperties.TapTwice` | AirSegmentedControl/AirSegmentedControl.swift:117-122 | with duplicates ignored a second tap on the same tag changes nothing; otherwise it only sends one more event |
| `ControlProperties.TapEvents` | AirSegmentedControl/AirSegmentedControl.swift:117-122 | a tap sends no event exactly when duplicates are ignored and the tag is selected, and one event otherwise |
| `ControlProperties.ConfigureTwice` | AirSegmentedControl/AirSegmentedControl.swift:44-114 | two configures on a new control keep both batches; two buttons are selected, and the one constraint in force is position 0, in the first batch |

## Left out

- Views, Auto Layout geometry, visual-format strings, equal-width and edge
  pinning, and `layoutIfNeeded`. These belong to the UI toolkit. The
  chaining constraints are kept only as the position `Classify` returns;
  the centring constraints only as their priorities.
- Colours, attributed titles, `tintColor`, `backgroundColor` and every
  style field except `shouldIgnoreDuplicateInputs`. They only affect how
  the control looks.
- `animationTime` and `UIView.animate`. They are floating-point timing
  and run asynchronously. `animated` is a parameter with no effect on
  the state.
- `sendActions(for:)` target dispatch. It is modelled as a counter of
  `valueChanged` events.
- `ButtonTapped` takes the position of the tapped button in the control's
  button list. Only the control's own buttons send this action.
- Swift's 64-bit `Int`. Indices and tags are only compared, never
  computed with, so the model uses unbounded integers. The event counter
  is unbounded too.
- InspectableAirSegmentedControl.swift. It only forwards Interface Builder
  properties and has no behaviour of its own.
- The playground. It is a usage example.
