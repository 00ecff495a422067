/** The display-function router (System.cpp): four display slots, each
    showing one Function, and the settings flow driven by the second encoder's
    push button through the Menu. Hardware hand-overs (perfGraph_, snake_,
    display clears) are recorded as Deactivate/Activate events. */
module Router {
  import Wrappers
  import opened Menus

  /** System.h `enum class Function`, in declaration order. */
  datatype Function = None | ColorTest | CPUGraph | MiscGraph | Snake | Settings

  /** static_cast<Function>(idx) for the six function-picker entries. */
  function FromIndex(i: int): (f: Function)
    requires 0 <= i < 6
    ensures i == 0 <==> f == None
    ensures i == 5 <==> f == Settings
  {
    [None, ColorTest, CPUGraph, MiscGraph, Snake, Settings][i]
  }

  /** Which select callback the menu currently holds. */
  datatype Page = NoPage | MainMenu | DisplayPicker | FunctionPicker | VerbosityPicker

  /** A hand-over on one slot: the old function is switched off, the new one on. */
  datatype Event = Deactivate(slot: int, from: Function) | Activate(slot: int, to: Function)

  const SLOTS: int := 4

  const MAIN_MENU_ITEMS: seq<string> := ["Display functions", "Logger verbosity", "Reboot", "Cancel"]
  const DISPLAY_NAMES: seq<string> := ["Top Left", "Top Right", "Bottom Left", "Bottom Right"]
  const FUNCTION_NAMES: seq<string> := ["None", "Color Test", "CPU Graph", "Misc Graph", "Snake", "Settings"]
  const VERBOSITY_NAMES: seq<string> := ["Trace", "Debug", "Info", "Warn", "Error"]

  predicate InRange(idx: int) { 0 <= idx < SLOTS }

  /** The at-most-one-slot rule: no function other than None sits on two slots. */
  predicate Exclusive(s: seq<Function>)
  {
    forall i, j :: 0 <= i < j < |s| && s[i] == s[j] ==> s[i] == None
  }

  /** setDisplayFunction does its two-sided hand-over on idx (it does not
      return early on finding `f` already there). */
  predicate Activates(s: seq<Function>, idx: int, f: Function)
    requires |s| == SLOTS
  {
    InRange(idx) && !(f != None && s[idx] == f)
  }

  /** Slot j is set to None by the scan for an earlier copy of `f`. The scan
      stops when it reaches idx holding `f`. */
  predicate Cleared(s: seq<Function>, idx: int, f: Function, j: int)
    requires |s| == SLOTS && 0 <= j < SLOTS
  {
    InRange(idx) && f != None && j != idx && s[j] == f && (j < idx || s[idx] != f)
  }

  /** The slots after setDisplayFunction(idx, f). */
  function Reassigned(s: seq<Function>, idx: int, f: Function): (r: seq<Function>)
    requires |s| == SLOTS
    ensures |r| == SLOTS
    ensures !InRange(idx) ==> r == s
    ensures InRange(idx) ==> r[idx] == f
    ensures forall j :: 0 <= j < SLOTS && j != idx ==> r[j] == (if Cleared(s, idx, f, j) then None else s[j])
  {
    if !InRange(idx) then s
    else seq(SLOTS, j requires 0 <= j < SLOTS => if j == idx then f else if Cleared(s, idx, f, j) then None else s[j])
  }

  /** The slots after the clearing scan alone. */
  function Scanned(s: seq<Function>, idx: int, f: Function): (r: seq<Function>)
    requires |s| == SLOTS
    ensures |r| == SLOTS
  {
    seq(SLOTS, j requires 0 <= j < SLOTS => if Cleared(s, idx, f, j) then None else s[j])
  }

  /** The slots after the scan has looked at slots 0..i-1. */
  function ScannedUpTo(s: seq<Function>, idx: int, f: Function, i: int): (r: seq<Function>)
    requires |s| == SLOTS
    ensures |r| == SLOTS
  {
    seq(SLOTS, j requires 0 <= j < SLOTS => if j < i && Cleared(s, idx, f, j) then None else s[j])
  }

  lemma ScannedUpToStep(s: seq<Function>, idx: int, f: Function, i: int)
    requires |s| == SLOTS && 0 <= i < SLOTS
    ensures ScannedUpTo(s, idx, f, i)[i] == s[i]
    ensures ScannedUpTo(s, idx, f, i + 1) ==
      if Cleared(s, idx, f, i) then ScannedUpTo(s, idx, f, i)[i := None] else ScannedUpTo(s, idx, f, i)
  {
  }

  /** When the scan stops at idx, nothing after it would have been cleared. */
  lemma ScannedUpToRest(s: seq<Function>, idx: int, f: Function, i: int)
    requires |s| == SLOTS && 0 <= i < SLOTS && i == idx && s[idx] == f
    ensures ScannedUpTo(s, idx, f, i) == Scanned(s, idx, f)
    ensures forall j :: i <= j < SLOTS ==> !Cleared(s, idx, f, j)
  {
  }

  lemma ScannedWhenFound(s: seq<Function>, idx: int, f: Function)
    requires |s| == SLOTS && InRange(idx) && s[idx] == f
    ensures Scanned(s, idx, f) == Reassigned(s, idx, f)
  {
  }

  lemma ScannedThenSet(s: seq<Function>, idx: int, f: Function)
    requires |s| == SLOTS && InRange(idx)
    ensures Scanned(s, idx, f)[idx] == s[idx]
    ensures Scanned(s, idx, f)[idx := f] == Reassigned(s, idx, f)
  {
  }

  /** The hand-over events of the clearing scan over the first n slots. */
  function ClearEvents(s: seq<Function>, idx: int, f: Function, n: int): (e: seq<Event>)
    requires |s| == SLOTS && 0 <= n <= SLOTS
    decreases n
  {
    if n == 0 then []
    else ClearEvents(s, idx, f, n - 1) +
         (if Cleared(s, idx, f, n - 1) then [Deactivate(n - 1, f), Activate(n - 1, None)] else [])
  }

  /** Every hand-over setDisplayFunction(idx, f) performs, in order. */
  function Transitions(s: seq<Function>, idx: int, f: Function): (e: seq<Event>)
    requires |s| == SLOTS
  {
    if !InRange(idx) then []
    else ClearEvents(s, idx, f, SLOTS) + (if Activates(s, idx, f) then [Deactivate(idx, s[idx]), Activate(idx, f)] else [])
  }

  /** The router's state as a value: the slots, the settings bookkeeping, the
      menu's page/items/selection, the logger verbosity, and the event trace. */
  datatype RouterState = RouterState(
    slots: seq<Function>,
    settingsDisplay: int,
    lastSetting: Function,
    selectedDisplay: int,
    page: Page,
    items: seq<string>,
    selected: int,
    verbosity: int,
    rebooted: bool,
    events: seq<Event>)

  predicate StateValid(st: RouterState)
  {
    |st.slots| == SLOTS && -1 <= st.settingsDisplay < SLOTS
  }

  /** showSettings: the main menu with its first item selected. */
  function ShowSettingsFn(st: RouterState): RouterState
  {
    st.(page := MainMenu, items := MAIN_MENU_ITEMS, selected := 0)
  }

  /** setDisplayFunction(idx, f) on the whole state. */
  function SetFn(st: RouterState, idx: int, f: Function): (r: RouterState)
    requires StateValid(st)
    ensures StateValid(r)
    ensures r.slots == Reassigned(st.slots, idx, f)
    ensures r.events == st.events + Transitions(st.slots, idx, f)
    ensures r.selectedDisplay == st.selectedDisplay && r.verbosity == st.verbosity && r.rebooted == st.rebooted
  {
    var s := st.slots;
    var st1 := st.(slots := Reassigned(s, idx, f), events := st.events + Transitions(s, idx, f));
    if Activates(s, idx, f) && f == Settings then
      ShowSettingsFn(st1.(lastSetting := s[idx], settingsDisplay := idx))
    else st1
  }

  /** The hand-over on idx alone (the second half of setDisplayFunction). */
  function HandOverFn(st: RouterState, idx: int, f: Function): (r: RouterState)
    requires StateValid(st) && InRange(idx)
  {
    var st1 := st.(slots := st.slots[idx := f], events := st.events + [Deactivate(idx, st.slots[idx]), Activate(idx, f)]);
    if f == Settings then ShowSettingsFn(st1.(lastSetting := st.slots[idx], settingsDisplay := idx)) else st1
  }

  /** setDisplayFunction is the scan followed, unless the scan stopped at idx,
      by the hand-over on idx. */
  lemma SetFnSplit(st: RouterState, idx: int, f: Function)
    requires StateValid(st) && InRange(idx)
    ensures var scanned := st.(slots := Scanned(st.slots, idx, f), events := st.events + ClearEvents(st.slots, idx, f, SLOTS));
      StateValid(scanned) &&
      SetFn(st, idx, f) == if Activates(st.slots, idx, f) then HandOverFn(scanned, idx, f) else scanned
  {
    ScannedThenSet(st.slots, idx, f);
    if !Activates(st.slots, idx, f) {
      ScannedWhenFound(st.slots, idx, f);
    }
  }

  /** closeSettings: puts back what Settings replaced, then forgets it. */
  function CloseFn(st: RouterState): (r: RouterState)
    requires StateValid(st)
    ensures StateValid(r) && r.settingsDisplay == -1 && r.lastSetting == None
  {
    SetFn(st, st.settingsDisplay, st.lastSetting).(lastSetting := None, settingsDisplay := -1)
  }

  /** onMainMenuItem(idx). */
  function MainMenuFn(st: RouterState, idx: int): (r: RouterState)
    requires StateValid(st)
    ensures StateValid(r)
  {
    if idx == 0 then st.(page := DisplayPicker, items := DISPLAY_NAMES, selected := 0)
    else if idx == 1 then st.(page := VerbosityPicker, items := VERBOSITY_NAMES, selected := 0)
    else if idx == 2 then st.(rebooted := true)
    else CloseFn(st)
  }

  /** The function-picker callback. */
  function PickFunctionFn(st: RouterState, idx: int): (r: RouterState)
    requires StateValid(st)
    ensures StateValid(r)
    // an index outside the six entries is rejected with no change
    ensures (idx < 0 || idx >= 6) ==> r == st
  {
    if idx < 0 || idx >= |FUNCTION_NAMES| then st
    else
      var g := FromIndex(idx);
      var st1 := if st.lastSetting == g then st.(lastSetting := None) else st;
      var st2 := CloseFn(st1);
      SetFn(st2, st2.selectedDisplay, g).(selectedDisplay := -1)
  }

  /** The verbosity-picker callback. */
  function PickVerbosityFn(st: RouterState, idx: int): (r: RouterState)
    requires StateValid(st)
    ensures StateValid(r)
    ensures (idx < 0 || idx >= 5) ==> r == st
    ensures 0 <= idx < 5 ==> r.verbosity == idx && r.settingsDisplay == -1
  {
    if idx < 0 || idx >= |VERBOSITY_NAMES| then st
    else CloseFn(st.(verbosity := idx))
  }

  /** Menu::Click: the installed select callback receives the current index. */
  function SelectFn(st: RouterState, idx: int): (r: RouterState)
    requires StateValid(st)
    ensures StateValid(r)
  {
    match st.page
    case NoPage => st
    case MainMenu => MainMenuFn(st, idx)
    case DisplayPicker => st.(selectedDisplay := idx, page := FunctionPicker, items := FUNCTION_NAMES, selected := 0)
    case FunctionPicker => PickFunctionFn(st, idx)
    case VerbosityPicker => PickVerbosityFn(st, idx)
  }

  /** The press handler of the second encoder: click the menu while Settings is
      shown, otherwise open Settings on the fourth display. */
  function PressFn(st: RouterState): (r: RouterState)
    requires StateValid(st)
    ensures StateValid(r)
  {
    if st.settingsDisplay != -1 && st.slots[st.settingsDisplay] == Settings then SelectFn(st, st.selected)
    else SetFn(st, 3, Settings)
  }

  /** Init on the whole state. */
  function InitFn(st: RouterState): (r: RouterState)
    requires StateValid(st)
    ensures StateValid(r)
  {
    SetFn(SetFn(SetFn(SetFn(st, 0, MiscGraph), 1, CPUGraph), 2, ColorTest), 3, Snake)
  }

  // ---------------------------------------------------------------- lemmas

  /** After a reassignment, `f` (when not None) sits on idx and on no other
      slot, as long as the scan could not stop early at a second copy. */
  lemma ReassignedOnlyAtIdx(s: seq<Function>, idx: int, f: Function)
    requires |s| == SLOTS && InRange(idx) && f != None
    requires Exclusive(s) || s[idx] != f
    ensures forall j :: 0 <= j < SLOTS ==> (Reassigned(s, idx, f)[j] == f <==> j == idx)
  {
  }

  /** The at-most-one-slot rule survives every call. */
  lemma ReassignedKeepsExclusive(s: seq<Function>, idx: int, f: Function)
    requires |s| == SLOTS && Exclusive(s)
    ensures Exclusive(Reassigned(s, idx, f))
  {
    var r := Reassigned(s, idx, f);
    if InRange(idx) {
      forall i, j | 0 <= i < j < SLOTS && r[i] == r[j]
        ensures r[i] == None
      {
        if f != None && (i == idx || j == idx) {
          ReassignedOnlyAtIdx(s, idx, f);
        }
      }
    }
  }

  /** Only idx and the slots cleared on its behalf change; a cleared slot held `f`. */
  lemma ReassignedFrame(s: seq<Function>, idx: int, f: Function, j: int)
    requires |s| == SLOTS && 0 <= j < SLOTS && j != idx
    requires Reassigned(s, idx, f)[j] != s[j]
    ensures s[j] == f && f != None && Reassigned(s, idx, f)[j] == None
  {
  }

  /** Clearing one slot: the slot becomes None and is handed over. */
  lemma SetNone(st: RouterState, i: int)
    requires StateValid(st) && InRange(i)
    ensures SetFn(st, i, None) == st.(slots := st.slots[i := None],
                                      events := st.events + [Deactivate(i, st.slots[i]), Activate(i, None)])
  {
    NoClearEvents(st.slots, i, None, SLOTS);
    assert Reassigned(st.slots, i, None) == st.slots[i := None];
  }

  /** Slots m..n-1 that are not cleared add no events. */
  lemma {:induction false} ClearEventsStable(s: seq<Function>, idx: int, f: Function, m: int, n: int)
    requires |s| == SLOTS && 0 <= m <= n <= SLOTS
    requires forall j :: m <= j < n ==> !Cleared(s, idx, f, j)
    ensures ClearEvents(s, idx, f, n) == ClearEvents(s, idx, f, m)
    decreases n
  {
    if n > m {
      ClearEventsStable(s, idx, f, m, n - 1);
    }
  }

  lemma NoClearEvents(s: seq<Function>, idx: int, f: Function, n: int)
    requires |s| == SLOTS && 0 <= n <= SLOTS
    requires forall j :: 0 <= j < n ==> !Cleared(s, idx, f, j)
    ensures ClearEvents(s, idx, f, n) == []
  {
    ClearEventsStable(s, idx, f, 0, n);
  }

  /** Assigning the function a slot already shows changes nothing and hands
      nothing over. */
  lemma SetSameIsNoOp(st: RouterState, idx: int, f: Function)
    requires StateValid(st) && Exclusive(st.slots) && InRange(idx)
    requires f != None && st.slots[idx] == f
    ensures SetFn(st, idx, f) == st
  {
    var s := st.slots;
    NoClearEvents(s, idx, f, SLOTS);
    assert Reassigned(s, idx, f) == s;
    assert st.events + [] == st.events;
  }

  /** A second identical call leaves the slots as the first left them, and
      for a function other than None it hands nothing over. */
  lemma SetIdempotent(st: RouterState, idx: int, f: Function)
    requires StateValid(st) && Exclusive(st.slots)
    ensures SetFn(SetFn(st, idx, f), idx, f).slots == SetFn(st, idx, f).slots
    ensures f != None ==> SetFn(SetFn(st, idx, f), idx, f) == SetFn(st, idx, f)
  {
    var st1 := SetFn(st, idx, f);
    ReassignedKeepsExclusive(st.slots, idx, f);
    if !InRange(idx) {
      assert st.events + [] == st.events;
    } else if f != None {
      SetSameIsNoOp(st1, idx, f);
    } else {
      var s1 := st1.slots;
      assert Reassigned(s1, idx, f) == s1;
    }
  }

  /** Setting Settings on a slot and then putting back what was there restores
      every slot, when Settings was shown nowhere before. */
  lemma SettingsRoundTrip(s: seq<Function>, idx: int)
    requires |s| == SLOTS && Exclusive(s) && InRange(idx)
    requires forall j :: 0 <= j < SLOTS ==> s[j] != Settings
    ensures Reassigned(Reassigned(s, idx, Settings), idx, s[idx]) == s
  {
    var t := Reassigned(s, idx, Settings);
    assert t == s[idx := Settings];
    assert Reassigned(t, idx, s[idx]) == s;
  }

  /** Pressing with Settings closed opens it on the fourth display, remembering
      what was there and showing the main menu. */
  lemma PressOpensSettings(st: RouterState)
    requires StateValid(st) && Exclusive(st.slots) && st.settingsDisplay == -1
    requires forall j :: 0 <= j < SLOTS ==> st.slots[j] != Settings
    ensures var r := PressFn(st);
      r.slots == st.slots[3 := Settings] &&
      r.settingsDisplay == 3 && r.lastSetting == st.slots[3] &&
      r.page == MainMenu && r.items == MAIN_MENU_ITEMS && r.selected == 0
  {
    assert Reassigned(st.slots, 3, Settings) == st.slots[3 := Settings];
  }

  /** The whole cancel flow: open Settings, select "Cancel", click. Every slot is
      back as it was and the settings bookkeeping is cleared. */
  lemma CancelRestoresSlots(st: RouterState)
    requires StateValid(st) && Exclusive(st.slots) && st.settingsDisplay == -1
    requires forall j :: 0 <= j < SLOTS ==> st.slots[j] != Settings
    ensures var r := PressFn(PressFn(st).(selected := 3));
      r.slots == st.slots && r.settingsDisplay == -1 && r.lastSetting == None
  {
    PressOpensSettings(st);
    SettingsRoundTrip(st.slots, 3);
  }

  /** Out-of-range closing (no Settings open) changes no slot. */
  lemma CloseWithoutSettings(st: RouterState)
    requires StateValid(st) && st.settingsDisplay == -1
    ensures CloseFn(st).slots == st.slots && CloseFn(st).events == st.events
  {
    assert st.events + [] == st.events;
  }

  /** The function picker: a valid choice is shown on the selected display, and
      the selected display is forgotten; Settings is closed first unless the
      choice itself is Settings, which opens it there. */
  lemma PickFunctionApplies(st: RouterState, idx: int)
    requires StateValid(st) && 0 <= idx < 6 && InRange(st.selectedDisplay)
    ensures var r := PickFunctionFn(st, idx);
      r.slots[st.selectedDisplay] == FromIndex(idx) &&
      r.selectedDisplay == -1 &&
      (FromIndex(idx) != Settings ==> r.settingsDisplay == -1 && r.lastSetting == None)
  {
  }

  lemma SetKeepsExclusive(st: RouterState, idx: int, f: Function)
    requires StateValid(st) && Exclusive(st.slots)
    ensures Exclusive(SetFn(st, idx, f).slots)
  {
    ReassignedKeepsExclusive(st.slots, idx, f);
  }

  lemma CloseKeepsExclusive(st: RouterState)
    requires StateValid(st) && Exclusive(st.slots)
    ensures Exclusive(CloseFn(st).slots)
  {
    SetKeepsExclusive(st, st.settingsDisplay, st.lastSetting);
  }

  lemma PickKeepsExclusive(st: RouterState, idx: int)
    requires StateValid(st) && Exclusive(st.slots)
    ensures Exclusive(PickFunctionFn(st, idx).slots)
    ensures Exclusive(PickVerbosityFn(st, idx).slots)
  {
    if 0 <= idx < 6 {
      var g := FromIndex(idx);
      var st1 := if st.lastSetting == g then st.(lastSetting := None) else st;
      CloseKeepsExclusive(st1);
      var st2 := CloseFn(st1);
      SetKeepsExclusive(st2, st2.selectedDisplay, g);
    }
    if 0 <= idx < 5 {
      CloseKeepsExclusive(st.(verbosity := idx));
    }
  }

  /** A menu click keeps the at-most-one-slot rule, on any page with any index. */
  lemma SelectKeepsExclusive(st: RouterState, idx: int)
    requires StateValid(st) && Exclusive(st.slots)
    ensures Exclusive(SelectFn(st, idx).slots)
  {
    match st.page
    case MainMenu => CloseKeepsExclusive(st);
    case FunctionPicker => PickKeepsExclusive(st, idx);
    case VerbosityPicker => PickKeepsExclusive(st, idx);
    case _ =>
  }

  /** So does the press handler. */
  lemma PressKeepsExclusive(st: RouterState)
    requires StateValid(st) && Exclusive(st.slots)
    ensures Exclusive(PressFn(st).slots)
  {
    if st.settingsDisplay != -1 && st.slots[st.settingsDisplay] == Settings {
      SelectKeepsExclusive(st, st.selected);
    } else {
      SetKeepsExclusive(st, 3, Settings);
    }
  }

  /** Init leaves [MiscGraph, CPUGraph, ColorTest, Snake] whatever the slots held. */
  lemma InitSlots(st: RouterState)
    requires StateValid(st)
    ensures InitFn(st).slots == [MiscGraph, CPUGraph, ColorTest, Snake]
  {
    var s1 := Reassigned(st.slots, 0, MiscGraph);
    var s2 := Reassigned(s1, 1, CPUGraph);
    var s3 := Reassigned(s2, 2, ColorTest);
    var s4 := Reassigned(s3, 3, Snake);
    assert s1[0] == MiscGraph;
    assert s2[0] == MiscGraph && s2[1] == CPUGraph;
    assert s3[0] == MiscGraph && s3[1] == CPUGraph && s3[2] == ColorTest;
    assert s4[0] == MiscGraph && s4[1] == CPUGraph && s4[2] == ColorTest && s4[3] == Snake;
  }

  class System {
    var displayFunctions: array<Function>
    var settingsDisplay: int
    var lastSettingFunction: Function
    var selectedDisplay: int
    var page: Page
    var verbosity: int
    var rebooted: bool
    var events: seq<Event>
    var menu: Menu

    ghost predicate Valid()
      reads this, menu
    {
      displayFunctions.Length == SLOTS && -1 <= settingsDisplay < SLOTS && menu.Valid()
    }

    ghost function Abs(): (st: RouterState)
      reads this, displayFunctions, menu
    {
      RouterState(displayFunctions[..], settingsDisplay, lastSettingFunction, selectedDisplay,
                  page, menu.items, menu.selectedIndex, verbosity, rebooted, events)
    }

    /** Everything but the slots and the event trace. */
    ghost function Bookkeeping(): (int, Function, int, Page, seq<string>, int, int, bool)
      reads this, menu
    {
      (settingsDisplay, lastSettingFunction, selectedDisplay, page, menu.items, menu.selectedIndex, verbosity, rebooted)
    }

    /** Logger verbosity starts at Info (2). */
    constructor ()
      ensures Valid() && fresh(displayFunctions) && fresh(menu)
      ensures Abs() == RouterState([None, None, None, None], -1, None, -1, NoPage, [], -1, 2, false, [])
    {
      displayFunctions := new Function[SLOTS](_ => None);
      settingsDisplay := -1;
      lastSettingFunction := None;
      selectedDisplay := -1;
      page := NoPage;
      verbosity := 2;
      rebooted := false;
      events := [];
      menu := new Menu();
      new;
      assert displayFunctions[..] == [None, None, None, None];
    }

    method ShowMenu(p: Page, items: seq<string>)
      requires Valid() && items != [] && |items| < 10
      modifies this, menu
      ensures Valid() && displayFunctions == old(displayFunctions) && menu == old(menu)
      ensures Abs() == old(Abs()).(page := p, items := items, selected := 0)
    {
      page := p;
      menu.SetItems(Wrappers.Some(items));
    }

    method ShowSettings()
      requires Valid()
      modifies this, menu
      ensures Valid() && displayFunctions == old(displayFunctions) && menu == old(menu)
      ensures Abs() == ShowSettingsFn(old(Abs()))
    {
      ShowMenu(MainMenu, MAIN_MENU_ITEMS);
    }

    /** setDisplayFunction(i, None) as the scan uses it: slot i is switched
        off and left empty. */
    method ClearSlot(i: int)
      requires Valid() && InRange(i)
      modifies this, displayFunctions, menu
      ensures Valid() && displayFunctions == old(displayFunctions) && menu == old(menu)
      ensures displayFunctions[..] == old(displayFunctions[..])[i := None]
      ensures events == old(events) + [Deactivate(i, old(displayFunctions[i])), Activate(i, None)]
      ensures Bookkeeping() == old(Bookkeeping())
      decreases 1, 0
    {
      SetNone(Abs(), i);
      SetDisplayFunction(i, None);
    }

    /** One iteration of the scan, at slot i. */
    method ScanStep(ghost s: seq<Function>, idx: int, f: Function, i: int) returns (stop: bool)
      requires Valid() && InRange(idx) && f != None && 0 <= i < SLOTS && |s| == SLOTS
      requires forall j :: 0 <= j < i ==> !(j == idx && s[j] == f)
      requires displayFunctions[..] == ScannedUpTo(s, idx, f, i)
      modifies this, displayFunctions, menu
      ensures Valid() && displayFunctions == old(displayFunctions) && menu == old(menu)
      ensures Bookkeeping() == old(Bookkeeping())
      ensures stop <==> i == idx && s[i] == f
      ensures stop ==> displayFunctions[..] == old(displayFunctions[..]) && events == old(events)
      ensures !stop ==> displayFunctions[..] == ScannedUpTo(s, idx, f, i + 1)
      ensures !stop ==> events == old(events) + (if Cleared(s, idx, f, i) then [Deactivate(i, f), Activate(i, None)] else [])
      decreases 1, 1
    {
      ScannedUpToStep(s, idx, f, i);
      if displayFunctions[i] == f {
        if i == idx {
          return true;
        }
        ClearSlot(i);
      }
      return false;
    }

    /** The scan of setDisplayFunction for copies of `f`: every other slot
        holding it is set to None, until the scan reaches idx holding `f`,
        which it reports as `found` (setDisplayFunction then returns). */
    method ScanForCopies(idx: int, f: Function) returns (found: bool)
      requires Valid() && InRange(idx) && f != None
      modifies this, displayFunctions, menu
      ensures Valid() && displayFunctions == old(displayFunctions) && menu == old(menu)
      ensures found <==> old(displayFunctions[idx]) == f
      ensures displayFunctions[..] == Scanned(old(displayFunctions[..]), idx, f)
      ensures events == old(events) + ClearEvents(old(displayFunctions[..]), idx, f, SLOTS)
      ensures Bookkeeping() == old(Bookkeeping())
      decreases 1, 2
    {
      ghost var s := displayFunctions[..];
      var i := 0;
      while i < 4
        invariant 0 <= i <= 4 && Valid()
        invariant displayFunctions == old(displayFunctions) && menu == old(menu)
        invariant forall j :: 0 <= j < i ==> !(j == idx && s[j] == f)
        invariant displayFunctions[..] == ScannedUpTo(s, idx, f, i)
        invariant events == old(events) + ClearEvents(s, idx, f, i)
        invariant Bookkeeping() == old(Bookkeeping())
      {
        var stop := ScanStep(s, idx, f, i);
        if stop {
          ScannedUpToRest(s, idx, f, i);
          ClearEventsStable(s, idx, f, i, SLOTS);
          return true;
        }
        i := i + 1;
      }
      assert ScannedUpTo(s, idx, f, 4) == Scanned(s, idx, f);
      return false;
    }

    /** The two switches of setDisplayFunction and the final store: the
        current function on idx is handed over to `f`; activating Settings
        remembers what it replaces and opens the main menu. */
    method HandOver(idx: int, f: Function)
      requires Valid() && InRange(idx)
      modifies this, displayFunctions, menu
      ensures Valid() && displayFunctions == old(displayFunctions) && menu == old(menu)
      ensures Abs() == HandOverFn(old(Abs()), idx, f)
    {
      var current := displayFunctions[idx];
      events := events + [Deactivate(idx, current), Activate(idx, f)];
      if f == Settings {
        lastSettingFunction := current;
        settingsDisplay := idx;
        ShowSettings();
      }
      displayFunctions[idx] := f;
    }

    method SetDisplayFunction(idx: int, f: Function)
      requires Valid()
      modifies this, displayFunctions, menu
      ensures Valid() && displayFunctions == old(displayFunctions) && menu == old(menu)
      ensures Abs() == SetFn(old(Abs()), idx, f)
      decreases if f == None then 0 else 1, 3
    {
      if idx < 0 || idx > 3 {
        return;
      }
      ghost var st0 := Abs();
      SetFnSplit(st0, idx, f);
      if f != None {
        var found := ScanForCopies(idx, f);
        if found {
          return;
        }
      } else {
        NoClearEvents(st0.slots, idx, f, SLOTS);
      }
      HandOver(idx, f);
    }

    /** Init: MiscGraph, CPUGraph, ColorTest and Snake on slots 0 to 3. */
    method Init()
      requires Valid()
      modifies this, displayFunctions, menu
      ensures Valid() && displayFunctions == old(displayFunctions) && menu == old(menu)
      ensures Abs() == InitFn(old(Abs()))
      ensures displayFunctions[..] == [MiscGraph, CPUGraph, ColorTest, Snake]
    {
      InitSlots(Abs());
      SetDisplayFunction(0, MiscGraph);
      SetDisplayFunction(1, CPUGraph);
      SetDisplayFunction(2, ColorTest);
      SetDisplayFunction(3, Snake);
    }

    method CloseSettings()
      requires Valid()
      modifies this, displayFunctions, menu
      ensures Valid() && displayFunctions == old(displayFunctions) && menu == old(menu)
      ensures Abs() == CloseFn(old(Abs()))
    {
      SetDisplayFunction(settingsDisplay, lastSettingFunction);
      lastSettingFunction := None;
      settingsDisplay := -1;
    }

    method ShowDisplayNames()
      requires Valid()
      modifies this, menu
      ensures Valid() && displayFunctions == old(displayFunctions) && menu == old(menu)
      ensures Abs() == old(Abs()).(page := DisplayPicker, items := DISPLAY_NAMES, selected := 0)
    {
      ShowMenu(DisplayPicker, DISPLAY_NAMES);
    }

    method ShowFunctionNames()
      requires Valid()
      modifies this, menu
      ensures Valid() && displayFunctions == old(displayFunctions) && menu == old(menu)
      ensures Abs() == old(Abs()).(page := FunctionPicker, items := FUNCTION_NAMES, selected := 0)
    {
      ShowMenu(FunctionPicker, FUNCTION_NAMES);
    }

    method ShowVerbosityNames()
      requires Valid()
      modifies this, menu
      ensures Valid() && displayFunctions == old(displayFunctions) && menu == old(menu)
      ensures Abs() == old(Abs()).(page := VerbosityPicker, items := VERBOSITY_NAMES, selected := 0)
    {
      ShowMenu(VerbosityPicker, VERBOSITY_NAMES);
    }

    /** onMainMenuItem; item 2 (watchdog_reboot) only raises `rebooted`. */
    method OnMainMenuItem(idx: int)
      requires Valid()
      modifies this, displayFunctions, menu
      ensures Valid() && displayFunctions == old(displayFunctions) && menu == old(menu)
      ensures Abs() == MainMenuFn(old(Abs()), idx)
    {
      if idx == 0 {
        ShowDisplayNames();
      } else if idx == 1 {
        ShowVerbosityNames();
      } else if idx == 2 {
        rebooted := true;
      } else {
        CloseSettings();
      }
    }

    /** The function-picker callback installed by showFunctionNames. */
    method OnFunctionPicked(idx: int)
      requires Valid()
      modifies this, displayFunctions, menu
      ensures Valid() && displayFunctions == old(displayFunctions) && menu == old(menu)
      ensures Abs() == PickFunctionFn(old(Abs()), idx)
    {
      if idx < 0 || idx >= |FUNCTION_NAMES| {
        return;
      }
      var g := FromIndex(idx);
      if lastSettingFunction == g {
        lastSettingFunction := None;
      }
      CloseSettings();
      SetDisplayFunction(selectedDisplay, g);
      selectedDisplay := -1;
    }

    /** The verbosity-picker callback installed by showVerbosityNames. */
    method OnVerbosityPicked(idx: int)
      requires Valid()
      modifies this, displayFunctions, menu
      ensures Valid() && displayFunctions == old(displayFunctions) && menu == old(menu)
      ensures Abs() == PickVerbosityFn(old(Abs()), idx)
    {
      if idx < 0 || idx >= |VERBOSITY_NAMES| {
        return;
      }
      verbosity := idx;
      CloseSettings();
    }

    /** Menu::Click with the callback the current page installed. */
    method Click()
      requires Valid()
      modifies this, displayFunctions, menu
      ensures Valid() && displayFunctions == old(displayFunctions) && menu == old(menu)
      ensures Abs() == SelectFn(old(Abs()), old(menu.selectedIndex))
    {
      var idx := menu.Click();
      match page
      case NoPage =>
      case MainMenu => OnMainMenuItem(idx);
      case DisplayPicker =>
        selectedDisplay := idx;
        ShowFunctionNames();
      case FunctionPicker => OnFunctionPicked(idx);
      case VerbosityPicker => OnVerbosityPicked(idx);
    }

    /** The press handler of the second encoder. */
    method OnEncoderPress()
      requires Valid()
      modifies this, displayFunctions, menu
      ensures Valid() && displayFunctions == old(displayFunctions) && menu == old(menu)
      ensures Abs() == PressFn(old(Abs()))
    {
      if settingsDisplay != -1 && displayFunctions[settingsDisplay] == Settings {
        Click();
      } else {
        SetDisplayFunction(3, Settings);
      }
    }
  }
}
