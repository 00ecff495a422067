/** The settings menu's selection state (Functions/Menu.cpp). Only the item
    list and the selected index are modelled; drawing is left out. */
module Menus {
  import opened CInt
  import opened Wrappers

  /** Up: `(selectedIndex_ - 1) % items_->size()`. The int operand is converted
      to the 32-bit size_t before the remainder is taken. */
  function UpIndex(sel: int, n: nat): (r: int)
    requires n > 0
    ensures 0 <= r < n
  {
    ToUInt32(sel - 1) % n
  }

  /** Down: `(selectedIndex_ + 1) % items_->size()`, also in size_t. */
  function DownIndex(sel: int, n: nat): (r: int)
    requires n > 0
    ensures 0 <= r < n
  {
    ToUInt32(sel + 1) % n
  }

  /** Up from a positive selection moves to the previous item. */
  lemma UpFromPositive(sel: int, n: nat)
    requires 0 < sel < n < TWO_32
    ensures UpIndex(sel, n) == sel - 1
  {
    assert ToUInt32(sel - 1) == sel - 1;
    DivModUnique(sel - 1, n, 0, sel - 1);
  }

  /** Down moves to the next item and wraps from the last item to the first. */
  lemma DownWraps(sel: int, n: nat)
    requires 0 <= sel < n < TWO_32
    ensures DownIndex(sel, n) == if sel == n - 1 then 0 else sel + 1
  {
    assert ToUInt32(sel + 1) == sel + 1;
    if sel == n - 1 {
      DivModUnique(sel + 1, n, 1, 0);
    } else {
      DivModUnique(sel + 1, n, 0, sel + 1);
    }
  }

  /** Up from the first item wraps to the last item exactly when the item
      count divides 2^32; otherwise it lands on (2^32 - 1) mod n. */
  lemma {:induction false} UpFromZero(n: nat)
    requires 0 < n < TWO_32
    ensures UpIndex(0, n) == (TWO_32 - 1) % n
    ensures UpIndex(0, n) == n - 1 <==> TWO_32 % n == 0
  {
    var q := (TWO_32 - 1) / n;
    var r := (TWO_32 - 1) % n;
    assert TWO_32 - 1 == q * n + r;
    if r == n - 1 {
      assert TWO_32 == (q + 1) * n;
      DivModUnique(TWO_32, n, q + 1, 0);
    }
    if TWO_32 % n == 0 {
      var m := TWO_32 / n;
      assert TWO_32 == m * n;
      assert TWO_32 - 1 == (m - 1) * n + (n - 1);
      DivModUnique(TWO_32 - 1, n, m - 1, n - 1);
    }
  }

  /** The menus the firmware shows: from the first item, Up reaches the last
      of 4 items, but the first of 5 and the fourth of 6. */
  lemma UpFromZeroExamples()
    ensures UpIndex(0, 4) == 3
    ensures UpIndex(0, 5) == 0
    ensures UpIndex(0, 6) == 3
  {
    assert TWO_32 - 1 == 4 * 0x3FFF_FFFF + 3;
    DivModUnique(TWO_32 - 1, 4, 0x3FFF_FFFF, 3);
    assert TWO_32 - 1 == 5 * 0x3333_3333 + 0;
    DivModUnique(TWO_32 - 1, 5, 0x3333_3333, 0);
    assert TWO_32 - 1 == 6 * 0x2AAA_AAAA + 3;
    DivModUnique(TWO_32 - 1, 6, 0x2AAA_AAAA, 3);
  }

  class Menu {
    /** The shown items; a null items_ pointer is the empty list. */
    var items: seq<string>
    var selectedIndex: int

    ghost predicate Valid()
      reads this
    {
      |items| < TWO_31 &&
      (items == [] ==> selectedIndex == -1) &&
      (items != [] ==> 0 <= selectedIndex < |items|)
    }

    constructor ()
      ensures Valid() && items == [] && selectedIndex == -1
    {
      items := [];
      selectedIndex := -1;
    }

    /** `items` None stands for a null pointer. */
    method SetItems(newItems: Option<seq<string>>)
      requires newItems.Some? ==> |newItems.value| < TWO_31
      modifies this
      ensures Valid()
      ensures newItems.None? || newItems.value == [] ==> items == [] && selectedIndex == -1
      ensures newItems.Some? && newItems.value != [] ==> items == newItems.value && selectedIndex == 0
    {
      if newItems.None? || newItems.value == [] {
        items := [];
        selectedIndex := -1;
        return;
      }
      items := newItems.value;
      selectedIndex := 0;
    }

    method Up()
      requires Valid()
      modifies this
      ensures Valid() && items == old(items)
      ensures old(items) == [] ==> selectedIndex == old(selectedIndex)
      ensures old(items) != [] ==> selectedIndex == UpIndex(old(selectedIndex), |items|)
    {
      if items == [] {
        return;
      }
      selectedIndex := ToUInt32(selectedIndex - 1) % |items|;
    }

    method Down()
      requires Valid()
      modifies this
      ensures Valid() && items == old(items)
      ensures old(items) == [] ==> selectedIndex == old(selectedIndex)
      ensures old(items) != [] ==> selectedIndex == DownIndex(old(selectedIndex), |items|)
    {
      if items == [] {
        return;
      }
      selectedIndex := ToUInt32(selectedIndex + 1) % |items|;
    }

    /** Click hands the current index to the select callback; the caller
        dispatches it. */
    method Click() returns (idx: int)
      requires Valid()
      ensures idx == selectedIndex
      ensures items != [] ==> 0 <= idx < |items|
      ensures items == [] ==> idx == -1
    {
      idx := selectedIndex;
    }
  }
}
