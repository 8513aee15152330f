/** The control itself: a class whose methods update its fields in place,
    in the order AirSegmentedControl.swift does, each proved to produce the
    state that module ControlState specifies. */
module AirSegmented {
  import opened ControlState
  import ControlProperties

  class AirSegmentedControl {
    /** The style last passed to `configure`. */
    var style: Style
    /** The segment titles last passed to `configure`. */
    var segments: seq<string>
    /** The index last selected (or 0 before any selection). */
    var selectedSegmentIndex: int
    /** Every button ever added as a subview, in the order added. */
    var buttons: seq<Button>
    /** The priority of every underline-centring constraint, in the order
        the constraints were appended to `underlineConstraints`. */
    var priorities: seq<int>
    /** How many `valueChanged` actions have been sent. */
    var events: nat

    /** The whole state of the control as a value. */
    function Snapshot(): State
      reads this
    {
      State(segments, style, selectedSegmentIndex, buttons, priorities, events)
    }

    /** A new control: default style, no segments, index 0. */
    constructor ()
      ensures Snapshot() == Initial()
    {
      style := DefaultStyle;
      segments := [];
      selectedSegmentIndex := 0;
      buttons := [];
      priorities := [];
      events := 0;
    }

    /** configure(with:style:): both inputs are stored as given and the view
        is set up again on top of what is already there. Without a style
        argument the default style is stored, so duplicate inputs are
        ignored again. */
    method Configure(segments: seq<string>, style: Style := DefaultStyle)
      modifies this
      ensures this.segments == segments && this.style == style
      ensures selectedSegmentIndex == old(selectedSegmentIndex)
      ensures Snapshot() == ConfigureSpec(old(Snapshot()), segments, style)
      ensures old(Consistent(Snapshot())) ==> Consistent(Snapshot())
    {
      this.style := style;
      this.segments := segments;
      SetupView();
    }

    /** setupView: one button and one centring constraint at Low per
        segment, chained by position; the button at the selected index is
        marked selected and the underline moved to it. */
    method SetupView()
      modifies this
      ensures Snapshot() == SetupSpec(old(Snapshot()))
      ensures old(Consistent(Snapshot())) ==> Consistent(Snapshot())
    {
      ghost var b0, p0 := buttons, priorities;
      var n := |segments|;
      var sel := selectedSegmentIndex;
      var index := 0;
      ghost var positions: seq<Position> := [];
      while index < n
        invariant 0 <= index <= n
        invariant positions == Chain(n)[..index]
        invariant segments == old(segments) && style == old(style)
        invariant selectedSegmentIndex == sel == old(selectedSegmentIndex)
        invariant events == old(events)
        invariant buttons == b0 + NewButtons(index, sel)
        invariant priorities == SetupPriorities(p0, index, sel)
      {
        // The position picks which chaining constraints are added; those
        // are layout only. Calling Classify proves its default is
        // unreachable, and the positions met in order form Chain(n).
        var position := Classify(index, n);
        positions := positions + [position];
        buttons := buttons + [Button(index, false)];
        priorities := priorities + [Low];
        if sel == index {
          buttons := buttons[|buttons| - 1 := Button(index, true)];
          ConstrainBottomLine(index, true);
        }
        assert buttons == b0 + NewButtons(index + 1, sel);
        assert priorities == SetupPriorities(p0, index + 1, sel);
        index := index + 1;
      }
      if old(Consistent(Snapshot())) {
        ControlProperties.SetupConsistent(old(Snapshot()));
      }
    }

    /** buttonTapped: `k` is the position of the tapped button among the
        control's buttons, the only senders this action is registered on.
        A tap on the selected segment is dropped when duplicate inputs are
        ignored; any other tap selects the button's tag. */
    method ButtonTapped(k: nat)
      requires k < |buttons|
      modifies this
      ensures old(style.shouldIgnoreDuplicateInputs && selectedSegmentIndex == buttons[k].tag) ==>
                Snapshot() == old(Snapshot())
      ensures !old(style.shouldIgnoreDuplicateInputs && selectedSegmentIndex == buttons[k].tag) ==>
                Snapshot() == SelectSpec(old(Snapshot()), old(buttons[k].tag))
      // The two cases above, as one state function:
      ensures Snapshot() == TapSpec(old(Snapshot()), old(buttons[k].tag))
      ensures old(Consistent(Snapshot())) ==> Consistent(Snapshot())
    {
      var tag := buttons[k].tag;
      if style.shouldIgnoreDuplicateInputs && selectedSegmentIndex == tag {
        return;
      }
      Select(tag, true);
    }

    /** select(at:animated:): store the index, set each button's selected
        flag to whether its tag is the index, move the underline and send
        one `valueChanged`. */
    method Select(index: int, animated: bool := true)
      modifies this
      ensures selectedSegmentIndex == index
      ensures events == old(events) + 1
      ensures |buttons| == |old(buttons)|
      ensures forall k :: 0 <= k < |buttons| ==>
                buttons[k].tag == old(buttons[k].tag) && (buttons[k].isSelected <==> buttons[k].tag == index)
      ensures Snapshot() == SelectSpec(old(Snapshot()), index)
      ensures old(Consistent(Snapshot())) ==> Consistent(Snapshot())
      ensures ActiveCount(priorities) == if 0 <= index < |priorities| then 1 else 0
    {
      selectedSegmentIndex := index;
      ghost var b0 := buttons;
      var k := 0;
      while k < |buttons|
        invariant 0 <= k <= |buttons| == |b0|
        invariant buttons[..k] == Reselected(b0, index)[..k]
        invariant buttons[k..] == b0[k..]
        invariant selectedSegmentIndex == index
        invariant segments == old(segments) && style == old(style)
        invariant priorities == old(priorities) && events == old(events)
      {
        var b := buttons[k];
        if b.tag != index {
          buttons := buttons[k := b.(isSelected := false)];
        } else {
          buttons := buttons[k := b.(isSelected := true)];
        }
        assert buttons[..k + 1] == buttons[..k] + [buttons[k]];
        assert Reselected(b0, index)[..k + 1] == Reselected(b0, index)[..k] + [Reselected(b0, index)[k]];
        k := k + 1;
      }
      assert buttons == buttons[..k];
      ConstrainBottomLine(selectedSegmentIndex, animated);
      events := events + 1;
      ControlProperties.ActiveCountCentred(|priorities|, index);
      if old(Consistent(Snapshot())) {
        ControlProperties.SelectConsistent(old(Snapshot()), index);
      }
    }

    /** constrainBottomLine: the constraint at position `toIndex` of the
        list gets High and every other one Low. `animated` only chooses
        whether the following layout pass is animated. */
    method ConstrainBottomLine(toIndex: int, animated: bool := true)
      modifies this
      ensures |priorities| == |old(priorities)|
      ensures forall k :: 0 <= k < |priorities| ==> (priorities[k] == High <==> k == toIndex)
      ensures priorities == Centred(|old(priorities)|, toIndex)
      ensures segments == old(segments) && style == old(style)
      ensures selectedSegmentIndex == old(selectedSegmentIndex)
      ensures buttons == old(buttons) && events == old(events)
    {
      var index := 0;
      while index < |priorities|
        invariant 0 <= index <= |priorities| == |old(priorities)|
        invariant forall k :: 0 <= k < index ==> priorities[k] == (if k == toIndex then High else Low)
        invariant segments == old(segments) && style == old(style)
        invariant selectedSegmentIndex == old(selectedSegmentIndex)
        invariant buttons == old(buttons) && events == old(events)
      {
        if index != toIndex {
          priorities := priorities[index := Low];
        } else {
          priorities := priorities[index := High];
        }
        index := index + 1;
      }
    }
  }
}
