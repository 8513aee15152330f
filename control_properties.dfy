/** What the selection state machine of ControlState promises: at most one
    underline constraint in force at any time, exactly one selected button
    and one active constraint after a select on a once-configured control,
    none when the index is out of range, one event per select, duplicate
    taps dropped, and the cumulative effect of configuring twice. */
module ControlProperties {
  import opened ControlState

  // ---------------------------------------------------------------------
  // Counting lemmas

  lemma {:induction false} ActiveCountAppend(p: seq<int>, q: seq<int>)
    ensures ActiveCount(p + q) == ActiveCount(p) + ActiveCount(q)
    decreases |q|
  {
    if |q| > 0 {
      var q' := q[..|q| - 1];
      assert (p + q)[..|p + q| - 1] == p + q';
      ActiveCountAppend(p, q');
    } else {
      assert p + q == p;
    }
  }

  /** A list in which only position `toIndex` is High has one active
      constraint when `toIndex` is a position of it, and none otherwise. */
  lemma {:induction false} ActiveCountCentred(len: nat, toIndex: int)
    ensures ActiveCount(Centred(len, toIndex)) == if 0 <= toIndex < len then 1 else 0
  {
    if len > 0 {
      assert Centred(len, toIndex)[..len - 1] == Centred(len - 1, toIndex);
      ActiveCountCentred(len - 1, toIndex);
    }
  }

  lemma {:induction false} ActiveCountLows(n: nat)
    ensures ActiveCount(Lows(n)) == 0
  {
    if n > 0 {
      assert Lows(n)[..n - 1] == Lows(n - 1);
      ActiveCountLows(n - 1);
    }
  }

  lemma {:induction false} SelectedCountAppend(p: seq<Button>, q: seq<Button>)
    ensures SelectedCount(p + q) == SelectedCount(p) + SelectedCount(q)
    decreases |q|
  {
    if |q| > 0 {
      var q' := q[..|q| - 1];
      assert (p + q)[..|p + q| - 1] == p + q';
      SelectedCountAppend(p, q');
    } else {
      assert p + q == p;
    }
  }

  /** One setupView pass marks exactly one new button when the selected
      index is one of its segments, and none otherwise. */
  lemma {:induction false} SelectedCountNewButtons(n: nat, sel: int)
    ensures SelectedCount(NewButtons(n, sel)) == if 0 <= sel < n then 1 else 0
  {
    if n > 0 {
      assert NewButtons(n, sel)[..n - 1] == NewButtons(n - 1, sel);
      SelectedCountNewButtons(n - 1, sel);
    }
  }

  // ---------------------------------------------------------------------
  // The layout switch

  /** The chain setupView builds: the first button is First, the last one
      (when there are two or more) is Last and every other one Middle, so
      each index reaches one of the three cases. A single segment takes
      the First case. */
  lemma ChainShape(count: nat)
    ensures |Chain(count)| == count
    ensures count >= 1 ==> Chain(count)[0] == First
    ensures count >= 2 ==> Chain(count)[count - 1] == Last
    ensures forall i :: 0 < i < count - 1 ==> Chain(count)[i] == Middle
    ensures count == 1 ==> Chain(count) == [First]
  {
  }

  // ---------------------------------------------------------------------
  // The invariant: at most one active constraint

  lemma InitialConsistent()
    ensures Consistent(Initial())
  {
  }

  lemma {:induction false} CentredConsistent(len: nat, toIndex: int)
    ensures forall k :: 0 <= k < len ==> Centred(len, toIndex)[k] == Low || Centred(len, toIndex)[k] == High
    ensures ActiveCount(Centred(len, toIndex)) <= 1
  {
    ActiveCountCentred(len, toIndex);
  }

  /** select keeps the invariant; afterwards exactly one constraint is in
      force when `index` is a position of the constraint list, and none
      when it is not. */
  lemma SelectConsistent(s: State, index: int)
    requires Consistent(s)
    ensures Consistent(SelectSpec(s, index))
    ensures ActiveCount(SelectSpec(s, index).priorities) == if 0 <= index < |s.priorities| then 1 else 0
  {
    CentredConsistent(|s.priorities|, index);
    ActiveCountCentred(|s.priorities|, index);
  }

  lemma TapConsistent(s: State, tag: int)
    requires Consistent(s)
    ensures Consistent(TapSpec(s, tag))
  {
    if TapSpec(s, tag) != s {
      SelectConsistent(s, tag);
    }
  }

  /** setupView keeps the invariant: the list it leaves is either fully
      re-centred on the selected index or the old one with Low entries
      appended. */
  lemma SetupConsistent(s: State)
    requires Consistent(s)
    ensures Consistent(SetupSpec(s))
  {
    var n, sel := |s.segments|, s.selectedSegmentIndex;
    if 0 <= sel < n {
      CentredConsistent(|s.priorities| + n, sel);
    } else {
      ActiveCountAppend(s.priorities, Lows(n));
      ActiveCountLows(n);
    }
  }

  lemma ConfigureConsistent(s: State, segments: seq<string>, style: Style)
    requires Consistent(s)
    ensures Consistent(ConfigureSpec(s, segments, style))
  {
    SetupConsistent(s.(segments := segments, style := style));
  }

  // ---------------------------------------------------------------------
  // configure and setupView

  /** configure stores its inputs as given and keeps the selected index;
      setupView appends one button per segment, tagged 0, 1, ... in order,
      and one constraint per segment, and removes nothing. */
  lemma ConfigureAppends(s: State, segments: seq<string>, style: Style)
    ensures var c := ConfigureSpec(s, segments, style);
      c.segments == segments && c.style == style
      && c.selectedSegmentIndex == s.selectedSegmentIndex && c.events == s.events
      && |c.buttons| == |s.buttons| + |segments|
      && |c.priorities| == |s.priorities| + |segments|
      && c.buttons[..|s.buttons|] == s.buttons
      && (forall k :: |s.buttons| <= k < |c.buttons| ==>
            c.buttons[k].tag == k - |s.buttons|
            && (c.buttons[k].isSelected <==> k - |s.buttons| == s.selectedSegmentIndex))
  {
  }

  /** When the selected index is outside the new segments, setupView only
      appends Low constraints and leaves every earlier priority as it was. */
  lemma SetupOutOfRangeKeepsPriorities(s: State, segments: seq<string>, style: Style)
    requires !(0 <= s.selectedSegmentIndex < |segments|)
    ensures var c := ConfigureSpec(s, segments, style);
      c.priorities[..|s.priorities|] == s.priorities
      && (forall k :: |s.priorities| <= k < |c.priorities| ==> c.priorities[k] == Low)
      && SelectedCount(c.buttons) == SelectedCount(s.buttons)
  {
    SelectedCountAppend(s.buttons, NewButtons(|segments|, s.selectedSegmentIndex));
    SelectedCountNewButtons(|segments|, s.selectedSegmentIndex);
  }

  /** On a control with no buttons yet, configure selects exactly the
      button at the selected index and raises exactly the constraint at
      that position: one button and one active constraint
      when the index is in range, none of either otherwise. */
  lemma FirstConfigureSelection(s: State, segments: seq<string>, style: Style)
    requires s.buttons == [] && s.priorities == []
    ensures var c := ConfigureSpec(s, segments, style);
      var inRange := 0 <= s.selectedSegmentIndex < |segments|;
      (forall k :: 0 <= k < |c.buttons| ==> (c.buttons[k].isSelected <==> k == s.selectedSegmentIndex))
      && (forall k :: 0 <= k < |c.priorities| ==> (c.priorities[k] == High <==> k == s.selectedSegmentIndex))
      && SelectedCount(c.buttons) == (if inRange then 1 else 0)
      && ActiveCount(c.priorities) == (if inRange then 1 else 0)
  {
    var n, sel := |segments|, s.selectedSegmentIndex;
    assert [] + NewButtons(n, sel) == NewButtons(n, sel);
    SelectedCountNewButtons(n, sel);
    if 0 <= sel < n {
      ActiveCountCentred(n, sel);
    } else {
      assert [] + Lows(n) == Lows(n);
      ActiveCountLows(n);
    }
  }

  // ---------------------------------------------------------------------
  // select

  /** After configuring a control once and selecting `index`, the index is
      stored, exactly the button tagged `index` (the one at position
      `index`) is selected and exactly the constraint at `index` is in
      force; for an index outside the segments no button is selected and
      no constraint is in force. One event is sent. */
  lemma SelectAfterSingleConfigure(s: State, segments: seq<string>, style: Style, index: int)
    requires s.buttons == [] && s.priorities == []
    ensures var r := SelectSpec(ConfigureSpec(s, segments, style), index);
      var inRange := 0 <= index < |segments|;
      r.selectedSegmentIndex == index
      && r.events == s.events + 1
      && r.buttons == NewButtons(|segments|, index)
      && r.priorities == Centred(|segments|, index)
      && SelectedCount(r.buttons) == (if inRange then 1 else 0)
      && ActiveCount(r.priorities) == (if inRange then 1 else 0)
  {
    var n := |segments|;
    var c := ConfigureSpec(s, segments, style);
    assert c.buttons == NewButtons(n, s.selectedSegmentIndex);
    assert Reselected(c.buttons, index) == NewButtons(n, index);
    SelectedCountNewButtons(n, index);
    ActiveCountCentred(n, index);
  }

  /** select marks buttons by tag: when no button carries the tag
      `index`, no button is selected afterwards. */
  lemma {:induction false} SelectUnknownTag(bs: seq<Button>, index: int)
    requires forall k :: 0 <= k < |bs| ==> bs[k].tag != index
    ensures SelectedCount(Reselected(bs, index)) == 0
    decreases |bs|
  {
    if |bs| > 0 {
      var front := bs[..|bs| - 1];
      assert Reselected(bs, index)[..|bs| - 1] == Reselected(front, index);
      SelectUnknownTag(front, index);
    }
  }

  /** Selecting the same index twice gives the same state as selecting it
      once, except that two events have been sent. */
  lemma SelectTwice(s: State, index: int)
    ensures SelectSpec(SelectSpec(s, index), index) == SelectSpec(s, index).(events := s.events + 2)
  {
    var once := SelectSpec(s, index);
    assert Reselected(once.buttons, index) == once.buttons;
  }

  /** The state after a run of selects: the calls in order. */
  function SelectAll(s: State, indices: seq<int>): State
    decreases |indices|
  {
    if |indices| == 0 then s else SelectAll(SelectSpec(s, indices[0]), indices[1..])
  }

  /** Every select sends exactly one event, whether or not it changes the
      index; after a non-empty run the last index given is the selected
      one. */
  lemma {:induction false} SelectAllEvents(s: State, indices: seq<int>)
    ensures SelectAll(s, indices).events == s.events + |indices|
    ensures |indices| > 0 ==> SelectAll(s, indices).selectedSegmentIndex == indices[|indices| - 1]
    ensures |SelectAll(s, indices).buttons| == |s.buttons|
    ensures |SelectAll(s, indices).priorities| == |s.priorities|
    decreases |indices|
  {
    if |indices| > 0 {
      SelectAllEvents(SelectSpec(s, indices[0]), indices[1..]);
    }
  }

  // ---------------------------------------------------------------------
  // buttonTapped

  /** With duplicate inputs ignored, a second tap on the segment just
      tapped changes nothing and sends no event; otherwise it selects
      again and sends one more event. */
  lemma TapTwice(s: State, tag: int)
    ensures var once := TapSpec(s, tag);
      if s.style.shouldIgnoreDuplicateInputs then TapSpec(once, tag) == once
      else TapSpec(once, tag) == once.(events := once.events + 1)
  {
    if !s.style.shouldIgnoreDuplicateInputs {
      SelectTwice(s, tag);
    }
  }

  /** A tap is dropped exactly when duplicate inputs are ignored and the
      tapped tag is already selected; every other tap sends one event. */
  lemma TapEvents(s: State, tag: int)
    ensures TapSpec(s, tag).events == s.events <==> (s.style.shouldIgnoreDuplicateInputs && s.selectedSegmentIndex == tag)
    ensures TapSpec(s, tag).events == s.events || TapSpec(s, tag).events == s.events + 1
  {
  }

  // ---------------------------------------------------------------------
  // configuring twice

  /** Configuring a fresh control twice keeps the first configuration's
      buttons and constraints. Both the first button of the first batch
      and the first button of the second batch are selected, and the
      only constraint in force is position 0, which belongs to the first
      batch: constrainBottomLine counts positions over the whole list. */
  lemma ConfigureTwice(a: seq<string>, styleA: Style, b: seq<string>, styleB: Style)
    requires |a| >= 1 && |b| >= 1
    ensures var c := ConfigureSpec(ConfigureSpec(Initial(), a, styleA), b, styleB);
      |c.buttons| == |a| + |b| && |c.priorities| == |a| + |b|
      && c.buttons[0] == Button(0, true) && c.buttons[|a|] == Button(0, true)
      && SelectedCount(c.buttons) == 2
      && c.priorities[0] == High && c.priorities[|a|] == Low
      && ActiveCount(c.priorities) == 1
  {
    var c1 := ConfigureSpec(Initial(), a, styleA);
    FirstConfigureSelection(Initial(), a, styleA);
    assert c1.buttons == NewButtons(|a|, 0);
    var c := ConfigureSpec(c1, b, styleB);
    SelectedCountAppend(c1.buttons, NewButtons(|b|, 0));
    SelectedCountNewButtons(|b|, 0);
    ActiveCountCentred(|a| + |b|, 0);
  }
}
