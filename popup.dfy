/** The searchable enum popup's state: the filtered option list and the
    keyboard cursor over it. */
module Popup {
  import opened Folding
  import opened Filtering
  import opened Navigation

  datatype Option<T> = None | Some(value: T)

  /** A fixed list of option strings and the subset of it that matches the
      current filter. */
  class FilteredList {
    const allItems: seq<string>
    /** The current filter; None before the first UpdateFilter (null). */
    var filter: Option<string>
    var entries: seq<Entry>

    /** Entries always hold what the current filter selects. */
    ghost predicate Valid()
      reads this
    {
      filter.Some? && entries == Matches(allItems, filter.value)
    }

    /** Starts with the empty filter, which lists every option. */
    constructor (allItems: seq<string>)
      ensures this.allItems == allItems
      ensures Valid() && filter == Some("")
    {
      this.allItems := allItems;
      filter := None;
      entries := [];
      new;
      var _ := UpdateFilter("");
    }

    /** The number of options before filtering. */
    function MaxLength(): (n: nat)
      reads this
      ensures Valid() ==> |entries| <= n
    {
      MatchesLength(allItems, if filter.Some? then filter.value else "");
      |allItems|
    }

    /** Rebuilds the entries for `newFilter`; false, and nothing changes,
        when the filter is already `newFilter`. */
    method UpdateFilter(newFilter: string) returns (updated: bool)
      modifies this
      ensures updated <==> old(filter) != Some(newFilter)
      ensures !updated ==> filter == old(filter) && entries == old(entries)
      ensures updated ==> filter == Some(newFilter) && entries == Matches(allItems, newFilter)
      ensures old(Valid()) || updated ==> Valid()
    {
      if filter == Some(newFilter) {
        return false;
      }
      filter := Some(newFilter);
      entries := [];
      var i := 0;
      while i < |allItems|
        invariant 0 <= i <= |allItems|
        invariant filter == Some(newFilter)
        invariant entries == Prefix(allItems, newFilter, i)
      {
        var keep := newFilter == "" || Contains(Lower(allItems[i]), Lower(newFilter));
        var exact := EqualsIgnoreCase(allItems[i], newFilter);
        assert keep == Keeps(allItems[i], newFilter) && exact == EqualsIgnoreCase(allItems[i], newFilter);
        PrefixStep(allItems, newFilter, i);
        if keep {
          var entry := Entry(i, allItems[i]);
          if exact {
            entries := [entry] + entries;
          } else {
            entries := entries + [entry];
          }
        }
        i := i + 1;
      }
      return true;
    }
  }

  /** The popup's index state: the option selected when it opened, the
      hovered row and the row to scroll into view. */
  class SearchablePopup {
    const list: FilteredList
    const currentIndex: int
    var hoverIndex: int
    var scrollToIndex: int

    /** Opens on the full list with the cursor on the current option. */
    constructor (names: seq<string>, currentIndex: int)
      ensures fresh(list) && list.allItems == names
      ensures list.Valid() && list.filter == Some("")
      ensures this.currentIndex == currentIndex
      ensures hoverIndex == currentIndex && scrollToIndex == currentIndex
    {
      list := new FilteredList(names);
      this.currentIndex := currentIndex;
      hoverIndex := currentIndex;
      scrollToIndex := currentIndex;
    }

    /** Handles one GUI event: arrows move the cursor, Return selects the
        hovered option, Escape closes. */
    method HandleKeyboard(ev: Event) returns (outcome: Outcome)
      modifies this
      ensures Cursor(hoverIndex, scrollToIndex) ==
        Step(Cursor(old(hoverIndex), old(scrollToIndex)), |list.entries|, ev)
      ensures outcome == React(list.entries, old(hoverIndex), ev)
    {
      outcome := Ignored;
      if ev.KeyDown? {
        if ev.key == DownArrow {
          hoverIndex := if |list.entries| - 1 < hoverIndex + 1 then |list.entries| - 1 else hoverIndex + 1;
          scrollToIndex := hoverIndex;
          outcome := Moved;
        }
        if ev.key == UpArrow {
          hoverIndex := if 0 > hoverIndex - 1 then 0 else hoverIndex - 1;
          scrollToIndex := hoverIndex;
          outcome := Moved;
        }
        if ev.key == Return {
          if 0 <= hoverIndex < |list.entries| {
            outcome := Selected(list.entries[hoverIndex].index);
          } else {
            outcome := IndexOutOfRange;
          }
        }
        if ev.key == Escape {
          outcome := Closed;
        }
      }
    }
  }
}
