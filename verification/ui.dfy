/**
 * The UI bookkeeping: the index buffer of the button quads, the button and section
 * vectors, the stacks of nested menus ("menu chains"), hiding every menu at once, and the
 * commands clicked buttons emit. A menu is reduced to its `active` flag: the layout of its
 * buttons depends on the glyph renderer's text bounds.
 */
module Ui {
  import opened Wrappers
  import opened Bytes
  import opened Structs

  // ---------------------------------------------------------------- index buffer

  /**
   * The first vertex of quad `i`: `4 * i as u16`, where the cast keeps the low 16 bits and
   * the product wraps as release builds do.
   */
  function QuadBase(i: nat): U16 {
    (4 * (i % TWO_16)) % TWO_16
  }

  /** The u16 sum `base + n`, wrapped as release builds do. */
  function QuadVertex(i: nat, n: nat): U16 {
    (QuadBase(i) + n) % TWO_16
  }

  /**
   * `insert_index_buffer_quad`: the six indices of quad `i` (two triangles over its four
   * vertices) in slots `6i` to `6i + 5`. The u16 arithmetic wraps past 65535.
   */
  function InsertIndexBufferQuad(buf: seq<U16>, i: nat): (r: seq<U16>)
    requires 6 * i + 6 <= |buf|
    ensures |r| == |buf|
    ensures r[6 * i..6 * i + 6] == [QuadVertex(i, 0), QuadVertex(i, 1), QuadVertex(i, 2),
                                   QuadVertex(i, 3), QuadVertex(i, 2), QuadVertex(i, 1)]
    ensures forall k | 0 <= k < |buf| && !(6 * i <= k < 6 * i + 6) :: r[k] == buf[k]
  {
    var b := (4 * (i % TWO_16)) % TWO_16;
    buf[6 * i := b][6 * i + 1 := (b + 1) % TWO_16][6 * i + 2 := (b + 2) % TWO_16]
       [6 * i + 3 := (b + 3) % TWO_16][6 * i + 4 := (b + 2) % TWO_16][6 * i + 5 := (b + 1) % TWO_16]
  }

  /**
   * Quad `i` draws exactly the four vertices `4i` to `4i + 3` of button `i`, as two
   * triangles sharing the diagonal from the second to the third vertex.
   */
  lemma QuadCoversItsVertices(buf: seq<U16>, i: nat)
    requires 6 * i + 6 <= |buf| && 4 * i + 3 < TWO_16
    ensures var q := InsertIndexBufferQuad(buf, i)[6 * i..6 * i + 6];
            && (set k | 0 <= k < 6 :: q[k]) == {4 * i, 4 * i + 1, 4 * i + 2, 4 * i + 3}
            && q[1] == q[5] && q[2] == q[4]
  {
    var q := InsertIndexBufferQuad(buf, i)[6 * i..6 * i + 6];
    SmallRemainder(i, TWO_16);
    SmallRemainder(4 * i, TWO_16);
    assert QuadBase(i) == 4 * i;
    SmallRemainder(4 * i + 1, TWO_16);
    SmallRemainder(4 * i + 2, TWO_16);
    SmallRemainder(4 * i + 3, TWO_16);
    var s := set k | 0 <= k < 6 :: q[k];
    assert q[0] in s && q[1] in s && q[2] in s && q[3] in s;
  }

  // ---------------------------------------------------------------- buttons and sections

  /** A screen-space rectangle (the glyph renderer's `Rectangle<f32>`). */
  datatype Rect = Rect(minX: real, minY: real, maxX: real, maxY: real)

  datatype ButtonState = Plain | Highlighted

  /** `UIButton`: its bounds, hover state, the command it emits and the id of its label's section. */
  datatype Button<C> = Button(bounds: Rect, state: ButtonState, command: Option<C>, sectionId: nat)

  /** `UIInternals` without the glyph renderer: the dirty flag and the two slot vectors. */
  datatype Internals<C, S> = Internals(vaoFlag: bool, buttons: OptionVec<Button<C>>, sections: OptionVec<S>)

  /** `UIInternals::new`: clean, with no buttons or sections. */
  function NewInternals<C, S>(): (r: Internals<C, S>)
    ensures !r.vaoFlag && Count(r.buttons) == 0 && Count(r.sections) == 0
  {
    Internals(false, Empty(), Empty())
  }

  /** `add_button`: mark the vertex array dirty and insert into the lowest free slot. */
  method AddButton<C, S>(ui: Internals<C, S>, button: Button<C>) returns (r: Internals<C, S>, index: nat)
    ensures r.vaoFlag && r.sections == ui.sections
    ensures index < Len(r.buttons) && r.buttons.slots[index] == Some(button)
    ensures FirstFree(ui.buttons.slots) == (if index < Len(ui.buttons) then Some(index) else None)
    ensures Count(r.buttons) == Count(ui.buttons) + 1
    ensures Len(r.buttons) == (if index < Len(ui.buttons) then Len(ui.buttons) else Len(ui.buttons) + 1)
    ensures forall j | 0 <= j < Len(ui.buttons) && j != index :: r.buttons.slots[j] == ui.buttons.slots[j]
  {
    var buttons;
    buttons, index := Insert(ui.buttons, button);
    InsertUsesFirstFree(ui.buttons.slots, index);
    InsertCounts(ui.buttons, buttons, index, button);
    r := ui.(vaoFlag := true, buttons := buttons);
  }

  /** `add_section`: mark the vertex array dirty and insert into the lowest free slot. */
  method AddSection<C, S>(ui: Internals<C, S>, section: S) returns (r: Internals<C, S>, index: nat)
    ensures r.vaoFlag && r.buttons == ui.buttons
    ensures index < Len(r.sections) && r.sections.slots[index] == Some(section)
    ensures FirstFree(ui.sections.slots) == (if index < Len(ui.sections) then Some(index) else None)
    ensures Count(r.sections) == Count(ui.sections) + 1
    ensures Len(r.sections) == (if index < Len(ui.sections) then Len(ui.sections) else Len(ui.sections) + 1)
    ensures forall j | 0 <= j < Len(ui.sections) && j != index :: r.sections.slots[j] == ui.sections.slots[j]
  {
    var sections;
    sections, index := Insert(ui.sections, section);
    InsertUsesFirstFree(ui.sections.slots, index);
    InsertCounts(ui.sections, sections, index, section);
    r := ui.(vaoFlag := true, sections := sections);
  }

  /**
   * `delete_button`: mark the vertex array dirty; when the slot holds a button, delete
   * its label's section and then the button. An index out of range panics.
   */
  function DeleteButton<C, S>(ui: Internals<C, S>, index: nat): (r: Internals<C, S>)
    requires index < Len(ui.buttons)
    requires ui.buttons.slots[index].Some? ==> ui.buttons.slots[index].value.sectionId < Len(ui.sections)
    ensures r.vaoFlag
    ensures Len(r.buttons) == Len(ui.buttons) && Len(r.sections) == Len(ui.sections)
    ensures r.buttons.slots[index].None?
    ensures ui.buttons.slots[index].None? ==> r.buttons == ui.buttons && r.sections == ui.sections
    ensures ui.buttons.slots[index].Some? ==> r.sections.slots[ui.buttons.slots[index].value.sectionId].None?
    ensures ui.buttons.slots[index].Some? ==>
              forall j | 0 <= j < Len(ui.sections) && j != ui.buttons.slots[index].value.sectionId ::
                r.sections.slots[j] == ui.sections.slots[j]
    ensures forall j | 0 <= j < Len(ui.buttons) && j != index :: r.buttons.slots[j] == ui.buttons.slots[j]
  {
    match ui.buttons.slots[index]
    case Some(button) =>
      ui.(vaoFlag := true, sections := Delete(ui.sections, button.sectionId), buttons := Delete(ui.buttons, index))
    case None =>
      ui.(vaoFlag := true)
  }

  /** Deleting a button frees its slot and its section's slot, when each was occupied, and nothing else. */
  lemma DeleteButtonCounts<C, S>(ui: Internals<C, S>, index: nat)
    requires index < Len(ui.buttons)
    requires ui.buttons.slots[index].Some? ==> ui.buttons.slots[index].value.sectionId < Len(ui.sections)
    ensures var r := DeleteButton(ui, index);
            && (ui.buttons.slots[index].None? ==> Count(r.buttons) == Count(ui.buttons) && Count(r.sections) == Count(ui.sections))
            && (ui.buttons.slots[index].Some? ==> Count(r.buttons) == Count(ui.buttons) - 1)
            && (ui.buttons.slots[index].Some? && ui.sections.slots[ui.buttons.slots[index].value.sectionId].Some? ==>
                  Count(r.sections) == Count(ui.sections) - 1)
  {
    if ui.buttons.slots[index].Some? {
      DeleteCounts(ui.buttons, index);
      DeleteCounts(ui.sections, ui.buttons.slots[index].value.sectionId);
    }
  }

  /** Every occupied button names a section slot that exists. */
  predicate SectionsInRange<C, S>(ui: Internals<C, S>) {
    forall j | 0 <= j < Len(ui.buttons) && ui.buttons.slots[j].Some? :: ui.buttons.slots[j].value.sectionId < Len(ui.sections)
  }

  /**
   * The loop of `Menu::hide`: `delete_button` on each of the menu's ids in turn. Every
   * named button slot ends empty, and so does the section of every button that was there;
   * the other buttons are untouched, and a slot already empty stays empty.
   */
  function DeleteButtons<C, S>(ui: Internals<C, S>, ids: seq<nat>): (r: Internals<C, S>)
    requires SectionsInRange(ui)
    requires forall k | 0 <= k < |ids| :: ids[k] < Len(ui.buttons)
    ensures SectionsInRange(r)
    ensures Len(r.buttons) == Len(ui.buttons) && Len(r.sections) == Len(ui.sections)
    ensures r.vaoFlag == (ui.vaoFlag || ids != [])
    ensures forall k | 0 <= k < |ids| :: r.buttons.slots[ids[k]].None?
    ensures forall k | 0 <= k < |ids| && ui.buttons.slots[ids[k]].Some? ::
              r.sections.slots[ui.buttons.slots[ids[k]].value.sectionId].None?
    ensures forall j | 0 <= j < Len(ui.buttons) && j !in ids :: r.buttons.slots[j] == ui.buttons.slots[j]
    ensures forall j | 0 <= j < Len(ui.sections) && ui.sections.slots[j].None? :: r.sections.slots[j].None?
    decreases |ids|
  {
    if ids == [] then ui
    else
      var next := DeleteButton(ui, ids[0]);
      assert forall k | 0 <= k < |ids[1..]| :: ids[1..][k] == ids[k + 1];
      DeleteButtons(next, ids[1..])
  }

  /**
   * `Menu::hide` on a menu whose buttons have ids `ids`: an inactive menu changes nothing;
   * an active one deletes its buttons and their sections, becomes inactive, and reports that
   * it was visible. The ids are kept, as the source keeps them until the next `show`.
   */
  function HideMenuButtons<C, S>(ui: Internals<C, S>, active: bool, ids: seq<nat>): (r: (Internals<C, S>, bool, bool))
    requires SectionsInRange(ui)
    requires forall k | 0 <= k < |ids| :: ids[k] < Len(ui.buttons)
    ensures !r.1 && r.2 == active
    ensures !active ==> r.0 == ui
    ensures active ==> r.0 == DeleteButtons(ui, ids)
  {
    if !active then (ui, false, false) else (DeleteButtons(ui, ids), false, true)
  }

  /** `delete_section`: mark the vertex array dirty and empty the section's slot. */
  function DeleteSection<C, S>(ui: Internals<C, S>, index: nat): (r: Internals<C, S>)
    requires index < Len(ui.sections)
    ensures r.vaoFlag && r.buttons == ui.buttons
    ensures Len(r.sections) == Len(ui.sections) && r.sections.slots[index].None?
    ensures forall j | 0 <= j < Len(ui.sections) && j != index :: r.sections.slots[j] == ui.sections.slots[j]
  {
    ui.(vaoFlag := true, sections := Delete(ui.sections, index))
  }

  // ---------------------------------------------------------------- menus

  /** `Menu::show`: activates the menu; an active menu is left alone. */
  function ShowMenu(menus: seq<bool>, index: nat): (r: seq<bool>)
    requires index < |menus|
    ensures |r| == |menus| && r[index]
    ensures forall k | 0 <= k < |menus| && k != index :: r[k] == menus[k]
  {
    if menus[index] then menus else menus[index := true]
  }

  /** `Menu::hide`: deactivates the menu and reports whether it was active. */
  function HideMenu(menus: seq<bool>, index: nat): (r: (seq<bool>, bool))
    requires index < |menus|
    ensures |r.0| == |menus| && !r.0[index]
    ensures r.1 == menus[index]
    ensures forall k | 0 <= k < |menus| && k != index :: r.0[k] == menus[k]
  {
    if !menus[index] then (menus, false) else (menus[index := false], true)
  }

  /** `Menu::toggle`: hides an active menu and shows an inactive one. */
  function ToggleMenuFlag(menus: seq<bool>, index: nat): (r: seq<bool>)
    requires index < |menus|
    ensures |r| == |menus| && r[index] == !menus[index]
    ensures forall k | 0 <= k < |menus| && k != index :: r[k] == menus[k]
  {
    if menus[index] then HideMenu(menus, index).0 else ShowMenu(menus, index)
  }

  /** Showing and hiding are idempotent, and toggling twice changes nothing. */
  lemma MenuFlagLaws(menus: seq<bool>, index: nat)
    requires index < |menus|
    ensures ShowMenu(ShowMenu(menus, index), index) == ShowMenu(menus, index)
    ensures HideMenu(HideMenu(menus, index).0, index) == (HideMenu(menus, index).0, false)
    ensures ToggleMenuFlag(ToggleMenuFlag(menus, index), index) == menus
  {
  }

  /**
   * `UIState` without the GPU handles and the glyph renderer: the internals, the menu
   * chains (stacks of menu indices, the top one shown), the menus' and text elements'
   * active flags, and the menus hidden by the last hide-all.
   */
  datatype UiState<C, S> = UiState(
    internals: Internals<C, S>,
    chains: seq<seq<nat>>,
    menus: seq<bool>,
    texts: seq<bool>,
    hidden: Option<seq<nat>>)

  function Last(chain: seq<nat>): nat
    requires chain != []
  {
    chain[|chain| - 1]
  }

  /** The chain's top menu, when there is one, is a menu index. */
  predicate TopInRange<C, S>(s: UiState<C, S>, chain: nat)
    requires chain < |s.chains|
  {
    s.chains[chain] != [] ==> Last(s.chains[chain]) < |s.menus|
  }

  /**
   * `append_to_chain`: hide the chain's top menu, if the chain has one, then show `dst`
   * and push it.
   */
  function AppendToChain<C, S>(s: UiState<C, S>, chain: nat, dst: nat): (r: UiState<C, S>)
    requires chain < |s.chains| && dst < |s.menus| && TopInRange(s, chain)
    ensures r.chains == s.chains[chain := s.chains[chain] + [dst]]
    ensures |r.menus| == |s.menus| && r.menus[dst]
    ensures s.chains[chain] != [] && Last(s.chains[chain]) != dst ==> !r.menus[Last(s.chains[chain])]
    ensures forall k | 0 <= k < |s.menus| && k != dst && (s.chains[chain] != [] ==> k != Last(s.chains[chain])) ::
              r.menus[k] == s.menus[k]
    ensures r.internals == s.internals && r.texts == s.texts && r.hidden == s.hidden
  {
    var menus := if s.chains[chain] != [] then HideMenu(s.menus, Last(s.chains[chain])).0 else s.menus;
    s.(menus := ShowMenu(menus, dst), chains := s.chains[chain := s.chains[chain] + [dst]])
  }

  /**
   * `rollback_chain`: nothing on an empty chain; otherwise pop and hide the top menu and
   * show the one beneath it, if any.
   */
  function RollbackChain<C, S>(s: UiState<C, S>, chain: nat): (r: UiState<C, S>)
    requires chain < |s.chains| && forall k | 0 <= k < |s.chains[chain]| :: s.chains[chain][k] < |s.menus|
    ensures s.chains[chain] == [] ==> r == s
    ensures s.chains[chain] != [] ==> r.chains == s.chains[chain := s.chains[chain][..|s.chains[chain]| - 1]]
    ensures |r.menus| == |s.menus|
    ensures s.chains[chain] != [] && r.chains[chain] == [] ==> !r.menus[Last(s.chains[chain])]
    ensures r.chains[chain] != [] && s.chains[chain] != [] ==>
              r.menus[Last(r.chains[chain])] &&
              (Last(s.chains[chain]) != Last(r.chains[chain]) ==> !r.menus[Last(s.chains[chain])])
    ensures r.internals == s.internals && r.texts == s.texts && r.hidden == s.hidden
  {
    var c := s.chains[chain];
    if c == [] then s
    else
      var rest := c[..|c| - 1];
      var menus := HideMenu(s.menus, Last(c)).0;
      var menus := if rest != [] then ShowMenu(menus, Last(rest)) else menus;
      s.(menus := menus, chains := s.chains[chain := rest])
  }

  /** The state every chain's top is shown in: an active top menu. */
  predicate TopActive<C, S>(s: UiState<C, S>, chain: nat)
    requires chain < |s.chains| && TopInRange(s, chain)
  {
    s.chains[chain] != [] ==> s.menus[Last(s.chains[chain])]
  }

  /**
   * Opening an inactive menu on a chain whose top is shown and rolling back at once
   * restores the state exactly.
   */
  lemma AppendThenRollback<C, S>(s: UiState<C, S>, chain: nat, dst: nat)
    requires chain < |s.chains| && dst < |s.menus| && TopInRange(s, chain)
    requires forall k | 0 <= k < |s.chains[chain]| :: s.chains[chain][k] < |s.menus|
    requires TopActive(s, chain) && !s.menus[dst]
    ensures RollbackChain(AppendToChain(s, chain, dst), chain) == s
  {
    var a := AppendToChain(s, chain, dst);
    var r := RollbackChain(a, chain);
    assert a.chains[chain][..|a.chains[chain]| - 1] == s.chains[chain];
    assert r.chains == s.chains;
    assert r.menus == s.menus;
  }

  /** `toggle_menu`: roll the chain back when the menu is active, otherwise open the menu on it. */
  function ToggleMenu<C, S>(s: UiState<C, S>, chain: nat, menu: nat): (r: UiState<C, S>)
    requires chain < |s.chains| && menu < |s.menus|
    requires forall k | 0 <= k < |s.chains[chain]| :: s.chains[chain][k] < |s.menus|
    ensures |r.chains| == |s.chains| && |r.menus| == |s.menus|
    ensures forall k | 0 <= k < |r.chains[chain]| :: r.chains[chain][k] < |r.menus|
    ensures !s.menus[menu] ==> r.chains[chain] == s.chains[chain] + [menu] && r.menus[menu]
    ensures s.menus[menu] && s.chains[chain] != [] ==> r.chains[chain] == s.chains[chain][..|s.chains[chain]| - 1]
    ensures s.menus[menu] && s.chains[chain] == [] ==> r == s
  {
    if s.menus[menu] then RollbackChain(s, chain) else AppendToChain(s, chain, menu)
  }

  /** Toggling an inactive menu twice on a chain whose top is shown changes nothing. */
  lemma ToggleMenuTwice<C, S>(s: UiState<C, S>, chain: nat, menu: nat)
    requires chain < |s.chains| && menu < |s.menus|
    requires forall k | 0 <= k < |s.chains[chain]| :: s.chains[chain][k] < |s.menus|
    requires TopActive(s, chain) && !s.menus[menu]
    ensures ToggleMenu(ToggleMenu(s, chain, menu), chain, menu) == s
  {
    AppendThenRollback(s, chain, menu);
  }

  /** `create_menu_chain`: push an empty chain and return its index. */
  function CreateMenuChain<C, S>(s: UiState<C, S>): (r: (UiState<C, S>, nat))
    ensures r.1 == |s.chains| && |r.0.chains| == |s.chains| + 1
    ensures r.0.chains[..r.1] == s.chains && r.0.chains[r.1] == []
    ensures r.0 == s.(chains := r.0.chains)
  {
    (s.(chains := s.chains + [[]]), |s.chains|)
  }

  /** The indices below `n` of the active menus, in increasing order. */
  function ActiveBelow(menus: seq<bool>, n: nat): (r: seq<nat>)
    requires n <= |menus|
    ensures forall k | 0 <= k < |r| :: r[k] < n && menus[r[k]]
    ensures forall k | 0 <= k < n && menus[k] :: k in r
    ensures forall a, b | 0 <= a < b < |r| :: r[a] < r[b]
  {
    if n == 0 then [] else ActiveBelow(menus, n - 1) + (if menus[n - 1] then [n - 1] else [])
  }

  /**
   * `hide_all_menus`: hide every menu in turn, recording the indices of those that were
   * active.
   */
  method HideAllMenus<C, S>(s: UiState<C, S>) returns (r: UiState<C, S>)
    ensures r.hidden == Some(ActiveBelow(s.menus, |s.menus|))
    ensures |r.menus| == |s.menus| && forall k | 0 <= k < |r.menus| :: !r.menus[k]
    ensures r == s.(menus := r.menus, hidden := r.hidden)
  {
    var menus := s.menus;
    var hid: seq<nat> := [];
    for i := 0 to |menus|
      invariant |menus| == |s.menus|
      invariant hid == ActiveBelow(s.menus, i)
      invariant forall k | 0 <= k < i :: !menus[k]
      invariant forall k | i <= k < |menus| :: menus[k] == s.menus[k]
    {
      var wasActive;
      menus, wasActive := HideMenu(menus, i).0, HideMenu(menus, i).1;
      if wasActive {
        hid := hid + [i];
      }
    }
    r := s.(menus := menus, hidden := Some(hid));
  }

  /**
   * `unhide_all_menus`: when a hide-all is recorded, show each menu it hid and forget the
   * record; otherwise nothing.
   */
  method UnhideAllMenus<C, S>(s: UiState<C, S>) returns (r: UiState<C, S>)
    requires s.hidden.Some? ==> forall k | 0 <= k < |s.hidden.value| :: s.hidden.value[k] < |s.menus|
    ensures s.hidden.None? ==> r == s
    ensures s.hidden.Some? ==> r.hidden.None? && |r.menus| == |s.menus|
    ensures s.hidden.Some? ==> forall k | 0 <= k < |s.menus| :: r.menus[k] == (s.menus[k] || k in s.hidden.value)
    ensures r == s.(menus := r.menus, hidden := r.hidden)
  {
    r := s;
    if s.hidden.Some? {
      var ids := s.hidden.value;
      var menus := s.menus;
      for i := 0 to |ids|
        invariant |menus| == |s.menus|
        invariant forall k | 0 <= k < |menus| :: menus[k] == (s.menus[k] || k in ids[..i])
      {
        menus := ShowMenu(menus, ids[i]);
        assert ids[..i + 1] == ids[..i] + [ids[i]];
      }
      assert ids[..|ids|] == ids;
      r := s.(menus := menus, hidden := None);
    }
  }

  /** `toggle_hide_all_menus`: hide everything when nothing is recorded, else reshow what was hidden. */
  method ToggleHideAllMenus<C, S>(s: UiState<C, S>) returns (r: UiState<C, S>)
    requires s.hidden.Some? ==> forall k | 0 <= k < |s.hidden.value| :: s.hidden.value[k] < |s.menus|
    ensures s.hidden.None? ==> r.hidden == Some(ActiveBelow(s.menus, |s.menus|))
    ensures s.hidden.None? ==> |r.menus| == |s.menus| && forall k | 0 <= k < |r.menus| :: !r.menus[k]
    ensures s.hidden.Some? ==> r.hidden.None? && |r.menus| == |s.menus|
    ensures s.hidden.Some? ==> forall k | 0 <= k < |s.menus| :: r.menus[k] == (s.menus[k] || k in s.hidden.value)
    ensures r == s.(menus := r.menus, hidden := r.hidden)
  {
    if s.hidden.None? {
      r := HideAllMenus(s);
    } else {
      r := UnhideAllMenus(s);
    }
  }

  /**
   * Toggling hide-all twice from a state with nothing recorded restores every menu flag:
   * the first toggle records exactly the active menus and the second reshows exactly them.
   */
  lemma ToggleHideAllTwice(menus: seq<bool>, hiddenMenus: seq<bool>, shown: seq<bool>)
    requires |hiddenMenus| == |menus| && forall k | 0 <= k < |menus| :: !hiddenMenus[k]
    requires |shown| == |menus|
    requires forall k | 0 <= k < |menus| :: shown[k] == (hiddenMenus[k] || k in ActiveBelow(menus, |menus|))
    ensures shown == menus
  {
    assert forall k | 0 <= k < |menus| :: shown[k] == menus[k];
  }

  /**
   * `reset`: empty the button and section slots, deactivate every text element and menu,
   * and empty every chain. The dirty flag and the hide-all record are kept.
   */
  method Reset<C, S>(s: UiState<C, S>) returns (r: UiState<C, S>)
    ensures Count(r.internals.buttons) == 0 && Len(r.internals.buttons) == Len(s.internals.buttons)
    ensures Count(r.internals.sections) == 0 && Len(r.internals.sections) == Len(s.internals.sections)
    ensures r.internals.vaoFlag == s.internals.vaoFlag
    ensures |r.texts| == |s.texts| && forall k | 0 <= k < |r.texts| :: !r.texts[k]
    ensures |r.menus| == |s.menus| && forall k | 0 <= k < |r.menus| :: !r.menus[k]
    ensures |r.chains| == |s.chains| && forall k | 0 <= k < |r.chains| :: r.chains[k] == []
    ensures r.hidden == s.hidden
  {
    var buttons := Clear(s.internals.buttons);
    var sections := Clear(s.internals.sections);
    ClearedIsEmpty(buttons);
    ClearedIsEmpty(sections);
    r := s.(internals := s.internals.(buttons := buttons, sections := sections),
            texts := seq(|s.texts|, _ => false),
            menus := seq(|s.menus|, _ => false),
            chains := seq(|s.chains|, _ => []));
  }

  // ---------------------------------------------------------------- button input

  /** The mouse is strictly inside the rectangle. */
  predicate Inside(bounds: Rect, x: real, y: real) {
    bounds.minX < x < bounds.maxX && bounds.minY < y < bounds.maxY
  }

  /** The command one slot emits: an occupied slot under the mouse, at the release of the button, with a command. */
  function SlotCommand<C>(slot: Option<Button<C>>, x: real, y: real, pressed: bool, pressedLast: bool): seq<C> {
    if slot.Some? && Inside(slot.value.bounds, x, y) && pressedLast && !pressed && slot.value.command.Some? then
      [slot.value.command.value]
    else
      []
  }

  /** The commands the slots emit, slot by slot in order. */
  function Emitted<C>(slots: seq<Option<Button<C>>>, x: real, y: real, pressed: bool, pressedLast: bool): seq<C> {
    if slots == [] then []
    else Emitted(slots[..|slots| - 1], x, y, pressed, pressedLast) + SlotCommand(slots[|slots| - 1], x, y, pressed, pressedLast)
  }

  /** The hover state a button is left in. */
  function NextState<C>(b: Button<C>, x: real, y: real, pressed: bool, pressedLast: bool): ButtonState {
    if Inside(b.bounds, x, y) then
      if b.state == Plain || pressed == pressedLast then Highlighted else b.state
    else
      if b.state != Plain then Plain else b.state
  }

  /** A button ends highlighted exactly when the mouse is over it, whatever its previous state. */
  lemma NextStateIsHover<C>(b: Button<C>, x: real, y: real, pressed: bool, pressedLast: bool)
    ensures NextState(b, x, y, pressed, pressedLast) == (if Inside(b.bounds, x, y) then Highlighted else Plain)
  {
  }

  /**
   * `update_buttons` without the colour uploads: walk the button slots, emit the command
   * of each button released under the mouse, and update each button's hover state.
   */
  method UpdateButtons<C>(buttons: OptionVec<Button<C>>, x: real, y: real, pressed: bool, pressedLast: bool)
    returns (r: OptionVec<Button<C>>, commands: seq<C>)
    ensures commands == Emitted(buttons.slots, x, y, pressed, pressedLast)
    ensures Len(r) == Len(buttons)
    ensures forall k | 0 <= k < Len(buttons) :: r.slots[k].Some? == buttons.slots[k].Some?
    ensures forall k | 0 <= k < Len(buttons) && buttons.slots[k].Some? ::
              r.slots[k].value == buttons.slots[k].value.(state := NextState(buttons.slots[k].value, x, y, pressed, pressedLast))
  {
    var slots := buttons.slots;
    commands := [];
    for i := 0 to |slots|
      invariant |slots| == |buttons.slots|
      invariant commands == Emitted(buttons.slots[..i], x, y, pressed, pressedLast)
      invariant forall k | i <= k < |slots| :: slots[k] == buttons.slots[k]
      invariant forall k | 0 <= k < i :: slots[k].Some? == buttons.slots[k].Some?
      invariant forall k | 0 <= k < i && buttons.slots[k].Some? ::
                  slots[k].value == buttons.slots[k].value.(state := NextState(buttons.slots[k].value, x, y, pressed, pressedLast))
    {
      assert buttons.slots[..i + 1][..i] == buttons.slots[..i];
      if slots[i].Some? {
        var button := slots[i].value;
        if Inside(button.bounds, x, y) {
          if pressedLast && !pressed {
            if button.command.Some? {
              commands := commands + [button.command.value];
            }
          }
          if button.state == Plain || pressed == pressedLast {
            button := button.(state := Highlighted);
          }
        } else {
          if button.state != Plain {
            button := button.(state := Plain);
          }
        }
        slots := slots[i := Some(button)];
      }
    }
    assert buttons.slots[..|slots|] == buttons.slots;
    r := OptionVec(slots);
  }

  /** At most one command per occupied slot, and none at all unless the mouse button was just released. */
  lemma {:induction false} EmittedBounds<C>(slots: seq<Option<Button<C>>>, x: real, y: real, pressed: bool, pressedLast: bool)
    ensures |Emitted(slots, x, y, pressed, pressedLast)| <= CountSome(slots)
    ensures !(pressedLast && !pressed) ==> Emitted(slots, x, y, pressed, pressedLast) == []
  {
    if slots != [] {
      EmittedBounds(slots[..|slots| - 1], x, y, pressed, pressedLast);
    }
  }

  /** Every emitted command is the command of an occupied slot with the mouse over its button. */
  lemma {:induction false} EmittedFromButtonsUnderMouse<C>(slots: seq<Option<Button<C>>>, x: real, y: real, pressed: bool, pressedLast: bool, n: nat)
    requires n < |Emitted(slots, x, y, pressed, pressedLast)|
    ensures exists k | 0 <= k < |slots| :: slots[k].Some? && Inside(slots[k].value.bounds, x, y) &&
              slots[k].value.command == Some(Emitted(slots, x, y, pressed, pressedLast)[n])
  {
    var init := slots[..|slots| - 1];
    var e := Emitted(init, x, y, pressed, pressedLast);
    if n < |e| {
      EmittedFromButtonsUnderMouse(init, x, y, pressed, pressedLast, n);
      var k :| 0 <= k < |init| && init[k].Some? && Inside(init[k].value.bounds, x, y) &&
               init[k].value.command == Some(e[n]);
      assert slots[k] == init[k];
    } else {
      assert slots[|slots| - 1].Some?;
    }
  }
}
