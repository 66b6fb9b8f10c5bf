/**
 * The shutdown-dialog bookkeeping of extension.js: `enable` inserts the "..."
 * menu button into the dialog content's `confirmButtons` list, `disable`
 * removes it again, and the replacement `_updateButtons` turns the list into
 * the buttons the dialog shows.
 */
module Dialog {
  import opened Wrappers

  /** The signal of the stock reboot button, which the menu button shares. */
  const RebootSignal: string := "ConfirmedReboot"
  const MenuType: string := "menu"

  /**
   * An entry of `confirmButtons`; `buttonType` is undefined for the dialog's
   * own buttons. The action callback a button carries is not modelled.
   */
  datatype Button = Button(signal: string, text: string, buttonType: Option<string>)

  /** The button `enable` adds: it toggles the menu of boot entries. */
  const MenuButton: Button := Button(RebootSignal, "...", Some(MenuType))

  /** A JavaScript number used as an array index: `undefined + 1` is NaN. */
  datatype JsIndex = Index(n: int) | NaN

  /** The module globals `backupButton` and `backupButtonIdx`, with the list they refer to. */
  datatype State = State(confirmButtons: seq<Button>, backupButton: Option<Button>, backupButtonIdx: JsIndex)

  /** The state `init` leaves and `disable` restores. */
  predicate Disengaged(s: State) {
    s.backupButton == None && s.backupButtonIdx == Index(-1)
  }

  /** Index of the first reboot button, if there is one. */
  function FirstReboot(bs: seq<Button>): (r: Option<nat>)
    ensures r.Some? ==> r.value < |bs| && bs[r.value].signal == RebootSignal
    ensures r.Some? ==> forall j :: 0 <= j < r.value ==> bs[j].signal != RebootSignal
    ensures r.None? ==> forall j :: 0 <= j < |bs| ==> bs[j].signal != RebootSignal
  {
    if bs == [] then None
    else if bs[0].signal == RebootSignal then Some(0)
    else match FirstReboot(bs[1..])
      case Some(k) => Some(k + 1)
      case None => None
  }

  /** `splice(start, 1)`: a NaN start counts as 0, a negative one counts from the end; nothing is removed past the end. */
  function SpliceOut(bs: seq<Button>, start: JsIndex): (r: seq<Button>)
    ensures |r| == |bs| - 1 <==> bs != [] && (start.NaN? || start.n < |bs|)
    ensures |r| != |bs| - 1 ==> r == bs
    ensures start.NaN? && bs != [] ==> r == bs[1..]
    ensures start.Index? && 0 <= start.n < |bs| ==> r == bs[..start.n] + bs[start.n + 1..]
    ensures start.Index? && -|bs| <= start.n < 0 ==> r == bs[..|bs| + start.n] + bs[|bs| + start.n + 1..]
    ensures start.Index? && start.n < -|bs| && bs != [] ==> r == bs[1..]
  {
    var k := match start
      case NaN => 0
      case Index(n) => if n < 0 then (if |bs| + n < 0 then 0 else |bs| + n) else (if n > |bs| then |bs| else n);
    if k < |bs| then bs[..k] + bs[k + 1..] else bs
  }

  /** `pop()`: the last element goes, if there is one. */
  function Pop(bs: seq<Button>): (r: seq<Button>)
    ensures bs != [] ==> r + [bs[|bs| - 1]] == bs
    ensures bs == [] ==> r == []
  {
    if bs == [] then [] else bs[..|bs| - 1]
  }

  /**
   * `enable`: the menu button goes just after the first reboot button, which
   * is saved with the index of the insertion; without a reboot button it is
   * appended, the index becomes NaN and the saved button is left as it was.
   */
  function Enabled(s: State): (e: State)
    ensures |e.confirmButtons| == |s.confirmButtons| + 1
    ensures e.backupButtonIdx.NaN? <==> forall j :: 0 <= j < |s.confirmButtons| ==> s.confirmButtons[j].signal != RebootSignal
    ensures e.backupButtonIdx.Index? ==>
      && 0 < e.backupButtonIdx.n <= |s.confirmButtons|
      && e.backupButton == Some(s.confirmButtons[e.backupButtonIdx.n - 1])
      && e.backupButton.value.signal == RebootSignal
      && (forall j :: 0 <= j < e.backupButtonIdx.n - 1 ==> s.confirmButtons[j].signal != RebootSignal)
      && e.confirmButtons
         == s.confirmButtons[..e.backupButtonIdx.n] + [MenuButton] + s.confirmButtons[e.backupButtonIdx.n..]
    ensures e.backupButtonIdx.NaN? ==> e.backupButton == s.backupButton && e.confirmButtons == s.confirmButtons + [MenuButton]
  {
    var bs := s.confirmButtons;
    match FirstReboot(bs)
    case Some(i) => State(bs[..i + 1] + [MenuButton] + bs[i + 1..], Some(bs[i]), Index(i + 1))
    case None => State(bs + [MenuButton], s.backupButton, NaN)
  }

  /** `disable`: splice out at the saved index when a button was saved, pop otherwise; then reset the globals. */
  function Disabled(s: State): (d: State)
    ensures Disengaged(d)
    ensures |s.confirmButtons| - 1 <= |d.confirmButtons| <= |s.confirmButtons|
    ensures s.backupButton.None? && s.confirmButtons != [] ==>
      d.confirmButtons + [s.confirmButtons[|s.confirmButtons| - 1]] == s.confirmButtons
    ensures s.backupButton.Some? ==> d.confirmButtons == SpliceOut(s.confirmButtons, s.backupButtonIdx)
  {
    var bs := if s.backupButton.Some? then SpliceOut(s.confirmButtons, s.backupButtonIdx) else Pop(s.confirmButtons);
    State(bs, None, Index(-1))
  }

  /**
   * `after` is `before` with the menu button at index `k`, just after the
   * first reboot button, or at the end when there is no reboot button.
   */
  predicate Placed(before: seq<Button>, after: seq<Button>, k: nat)
    requires k <= |before|
  {
    && after == before[..k] + [MenuButton] + before[k..]
    && (forall j :: 0 <= j < k - 1 ==> before[j].signal != RebootSignal)
    && (|| (0 < k && before[k - 1].signal == RebootSignal)
        || (k == |before| && forall j :: 0 <= j < |before| ==> before[j].signal != RebootSignal))
  }

  /**
   * Where `enable` puts the menu button: every other button keeps its order,
   * and the menu button follows the first reboot button, or ends the list
   * when there is none.
   */
  lemma EnablePlacement(s: State)
    ensures exists k :: 0 <= k <= |s.confirmButtons| && Placed(s.confirmButtons, Enabled(s).confirmButtons, k)
  {
    var bs := s.confirmButtons;
    match FirstReboot(bs)
    case Some(i) => assert Placed(bs, Enabled(s).confirmButtons, i + 1);
    case None => assert Placed(bs, Enabled(s).confirmButtons, |bs|);
  }

  /** `disable` after `enable` from the state `init` or `disable` leaves restores that state. */
  lemma DisableUndoesEnable(s: State)
    requires Disengaged(s)
    ensures Disabled(Enabled(s)) == s
  {
    var bs := s.confirmButtons;
    match FirstReboot(bs)
    case Some(i) =>
      var e := bs[..i + 1] + [MenuButton] + bs[i + 1..];
      assert e[..i + 1] + e[i + 2..] == bs;
    case None =>
      assert (bs + [MenuButton])[..|bs|] == bs;
  }

  /**
   * Why the round trip needs the disengaged state: with a saved button left
   * over from an earlier `enable` and no reboot button, `disable` splices at
   * NaN, which removes the first button and keeps the menu button.
   */
  lemma StaleBackupRemovesFirst(s: State)
    requires s.backupButton.Some? && |s.confirmButtons| > 0
    requires forall j :: 0 <= j < |s.confirmButtons| ==> s.confirmButtons[j].signal != RebootSignal
    ensures Disabled(Enabled(s)).confirmButtons == s.confirmButtons[1..] + [MenuButton]
  {
    assert (s.confirmButtons + [MenuButton])[1..] == s.confirmButtons[1..] + [MenuButton];
  }

  /** A button of the rebuilt dialog. */
  datatype DialogButton =
    | Cancel                                    // cancels the dialog; bound to Escape
    | Confirm(text: string, signal: string)    // closes the dialog, then confirms `signal`
    | MenuToggle(text: string, signal: string) // runs the button's own action (the boot-entry menu)

  /** How one confirm button is shown: by its type, undefined or 'menu'; any other type is dropped. */
  function Shown(b: Button): (d: Option<DialogButton>)
    ensures d.None? <==> b.buttonType.Some? && b.buttonType.value != MenuType
    ensures d.Some? ==> !d.value.Cancel? && d.value.text == b.text && d.value.signal == b.signal
    ensures d.Some? ==> (d.value.MenuToggle? <==> b.buttonType.Some?)
  {
    match b.buttonType
    case None => Some(Confirm(b.text, b.signal))
    case Some(t) => if t == MenuType then Some(MenuToggle(b.text, b.signal)) else None
  }

  /** The shown confirm buttons, in list order. */
  function ShownAll(bs: seq<Button>): (ds: seq<DialogButton>)
    ensures |ds| <= |bs|
    ensures forall j :: 0 <= j < |ds| ==> !ds[j].Cancel?
  {
    if bs == [] then []
    else
      ShownAll(bs[..|bs| - 1]) +
        match Shown(bs[|bs| - 1])
        case Some(d) => [d]
        case None => []
  }

  /** The button list `_updateButtons` hands to the dialog: Cancel, then the shown confirm buttons. */
  function DialogButtons(bs: seq<Button>): (ds: seq<DialogButton>)
    ensures 1 <= |ds| <= |bs| + 1
    ensures ds[0] == Cancel && forall j :: 1 <= j < |ds| ==> !ds[j].Cancel?
  {
    [Cancel] + ShownAll(bs)
  }

  lemma {:induction false} ShownAllAppend(a: seq<Button>, b: seq<Button>)
    ensures ShownAll(a + b) == ShownAll(a) + ShownAll(b)
    decreases |b|
  {
    if b == [] {
      assert a + b == a;
    } else {
      var last := |b| - 1;
      assert (a + b)[..|a + b| - 1] == a + b[..last];
      assert (a + b)[|a + b| - 1] == b[last];
      ShownAllAppend(a, b[..last]);
    }
  }

  /** A dialog button is shown exactly when some confirm button is shown as it. */
  lemma {:induction false} ShownAllMembership(bs: seq<Button>, d: DialogButton)
    ensures d in ShownAll(bs) <==> exists j :: 0 <= j < |bs| && Shown(bs[j]) == Some(d)
    decreases |bs|
  {
    if bs != [] {
      var init := bs[..|bs| - 1];
      ShownAllMembership(init, d);
      assert forall j :: 0 <= j < |init| ==> init[j] == bs[j];
      if Shown(bs[|bs| - 1]) != Some(d) && d in ShownAll(bs) {
        assert d in ShownAll(init);
      }
    }
  }

  /** A button of any other type leaves the rebuilt list as if it were absent. */
  lemma OtherTypeDropped(a: seq<Button>, b: Button, c: seq<Button>)
    requires b.buttonType.Some? && b.buttonType.value != MenuType
    ensures DialogButtons(a + [b] + c) == DialogButtons(a + c)
  {
    assert ShownAll([b]) == [] by { assert [b][..0] == []; }
    ShownAllAppend(a, [b]);
    ShownAllAppend(a + [b], c);
    ShownAllAppend(a, c);
    assert ShownAll(a + [b] + c) == ShownAll(a + c);
  }

  /** Inserting the menu button at `k` shows the menu toggle at the matching place of the dialog. */
  lemma ShownWithMenu(bs: seq<Button>, k: nat)
    requires k <= |bs|
    ensures DialogButtons(bs[..k] + [MenuButton] + bs[k..])
         == [Cancel] + ShownAll(bs[..k]) + [MenuToggle("...", RebootSignal)] + ShownAll(bs[k..])
    ensures DialogButtons(bs) == [Cancel] + (ShownAll(bs[..k]) + ShownAll(bs[k..]))
  {
    ShownAllAppend(bs[..k], bs[k..]);
    assert bs[..k] + bs[k..] == bs;
    assert ShownAll([MenuButton]) == [MenuToggle("...", RebootSignal)] by { assert [MenuButton][..0] == []; }
    ShownAllAppend(bs[..k] + [MenuButton], bs[k..]);
    ShownAllAppend(bs[..k], [MenuButton]);
  }

  /** The toggle sits between the two runs of shown buttons, and the list grows by it alone. */
  lemma ToggleBetween(front: seq<DialogButton>, back: seq<DialogButton>, toggle: DialogButton)
    ensures toggle in [Cancel] + front + [toggle] + back
    ensures |[Cancel] + front + [toggle] + back| == |[Cancel] + (front + back)| + 1
  {
    assert ([Cancel] + front + [toggle] + back)[1 + |front|] == toggle;
  }

  /**
   * Once enabled, the dialog shows every button it showed before, in the same
   * order, and the menu toggle where `enable` placed the menu button.
   */
  lemma EnabledDialogShowsMenu(s: State)
    ensures |DialogButtons(Enabled(s).confirmButtons)| == |DialogButtons(s.confirmButtons)| + 1
    ensures MenuToggle("...", RebootSignal) in DialogButtons(Enabled(s).confirmButtons)
    ensures exists k :: (
      && 0 <= k <= |s.confirmButtons|
      && Placed(s.confirmButtons, Enabled(s).confirmButtons, k)
      && DialogButtons(Enabled(s).confirmButtons)
         == [Cancel] + ShownAll(s.confirmButtons[..k]) + [MenuToggle("...", RebootSignal)] + ShownAll(s.confirmButtons[k..]))
  {
    var bs := s.confirmButtons;
    EnablePlacement(s);
    var k :| 0 <= k <= |bs| && Placed(bs, Enabled(s).confirmButtons, k);
    ShownWithMenu(bs, k);
    ToggleBetween(ShownAll(bs[..k]), ShownAll(bs[k..]), MenuToggle("...", RebootSignal));
  }

  /**
   * The replacement `_updateButtons`: start from the Cancel button and push
   * one dialog button per confirm button of an undefined or 'menu' type.
   */
  method UpdateButtons(confirmButtons: seq<Button>) returns (buttons: seq<DialogButton>)
    ensures buttons == DialogButtons(confirmButtons)
  {
    buttons := [Cancel];
    var i := 0;
    var n := |confirmButtons|;
    while i < n
      invariant 0 <= i <= n
      invariant buttons == [Cancel] + ShownAll(confirmButtons[..i])
    {
      var b := confirmButtons[i];
      assert confirmButtons[..i + 1][..i] == confirmButtons[..i];
      if b.buttonType.None? {
        buttons := buttons + [Confirm(b.text, b.signal)];
      } else if b.buttonType.value == MenuType {
        buttons := buttons + [MenuToggle(b.text, b.signal)];
      }
      i := i + 1;
    }
    assert confirmButtons[..n] == confirmButtons;
  }

  /**
   * The extension's hold on the shutdown dialog: the content's
   * `confirmButtons` list, which `enable` and `disable` change in place, and
   * the globals that remember the saved reboot button and its index.
   */
  class Extension {
    var confirmButtons: seq<Button>
    var backupButton: Option<Button>
    var backupButtonIdx: JsIndex

    function Snapshot(): State
      reads this
    {
      State(confirmButtons, backupButton, backupButtonIdx)
    }

    /** `init`: the saved button is cleared and the index set to -1. */
    constructor Init(buttons: seq<Button>)
      ensures Snapshot() == State(buttons, None, Index(-1))
    {
      confirmButtons := buttons;
      backupButton := None;
      backupButtonIdx := Index(-1);
    }

    method Enable()
      modifies this
      ensures Snapshot() == Enabled(old(Snapshot()))
    {
      var buttonIdx: Option<nat> := None;
      var i := 0;
      var n := |confirmButtons|;
      while i < n
        invariant 0 <= i <= n
        invariant buttonIdx.None? ==> forall j :: 0 <= j < i ==> confirmButtons[j].signal != RebootSignal
        invariant buttonIdx.Some? ==> buttonIdx == FirstReboot(confirmButtons)
      {
        if confirmButtons[i].signal == RebootSignal {
          buttonIdx := Some(i);
          break;
        }
        i := i + 1;
      }
      backupButtonIdx := if buttonIdx.Some? then Index(buttonIdx.value + 1) else NaN;
      if buttonIdx.Some? {
        var k := buttonIdx.value;
        backupButton := Some(confirmButtons[k]);
        confirmButtons := confirmButtons[..k + 1] + [MenuButton] + confirmButtons[k + 1..];
      } else {
        confirmButtons := confirmButtons + [MenuButton];
      }
    }

    method Disable()
      modifies this
      ensures Snapshot() == Disabled(old(Snapshot()))
    {
      if backupButton.Some? {
        confirmButtons := SpliceOut(confirmButtons, backupButtonIdx);
      } else {
        confirmButtons := Pop(confirmButtons);
      }
      backupButton := None;
      backupButtonIdx := Index(-1);
    }
  }

  /** The extension's lifecycle on one dialog: enable then disable gives the list back. */
  method EnableThenDisable(buttons: seq<Button>) returns (ext: Extension)
    ensures ext.Snapshot() == State(buttons, None, Index(-1))
  {
    ext := new Extension.Init(buttons);
    ext.Enable();
    DisableUndoesEnable(State(buttons, None, Index(-1)));
    ext.Disable();
  }
}
