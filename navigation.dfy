/** Keyboard navigation of the popup (SearchablePopup.HandleKeyboard): the
    arrow keys move the hovered row, Return selects the hovered option,
    Escape closes the popup. */
module Navigation {
  import opened Filtering

  datatype KeyCode = DownArrow | UpArrow | Return | Escape | OtherKey

  /** The GUI event handed to the popup; only key presses matter here. */
  datatype Event = KeyDown(key: KeyCode) | OtherEvent

  /** What handling an event does besides moving the cursor:
      Selected reports the chosen option to the caller and closes the popup;
      IndexOutOfRange is the exception raised by indexing the entries with
      a hovered row that does not exist. */
  datatype Outcome = Ignored | Moved | Selected(option: int) | Closed | IndexOutOfRange

  /** The hovered row and the row the scroll view must bring into view. */
  datatype Cursor = Cursor(hover: int, scrollTo: int)

  predicate IsArrow(ev: Event)
  {
    ev == KeyDown(DownArrow) || ev == KeyDown(UpArrow)
  }

  /** The cursor after `ev`, over a filtered list of `count` rows. */
  function Step(c: Cursor, count: int, ev: Event): (r: Cursor)
    ensures !IsArrow(ev) ==> r == c
    ensures IsArrow(ev) ==> r.scrollTo == r.hover
    ensures ev == KeyDown(DownArrow) ==>
      r.hover <= count - 1 && r.hover <= c.hover + 1 &&
      (r.hover == count - 1 || r.hover == c.hover + 1)
    ensures ev == KeyDown(UpArrow) ==>
      r.hover >= 0 && r.hover >= c.hover - 1 &&
      (r.hover == 0 || r.hover == c.hover - 1)
  {
    match ev
    case KeyDown(DownArrow) =>
      var h := if count - 1 < c.hover + 1 then count - 1 else c.hover + 1;
      Cursor(h, h)
    case KeyDown(UpArrow) =>
      var h := if 0 > c.hover - 1 then 0 else c.hover - 1;
      Cursor(h, h)
    case _ => c
  }

  /** The outcome of `ev` when row `hover` of `entries` is hovered. */
  function React(entries: seq<Entry>, hover: int, ev: Event): (o: Outcome)
    ensures o.Selected? <==> ev == KeyDown(Return) && 0 <= hover < |entries|
    ensures o.Selected? ==> o.option == entries[hover].index
    ensures o == IndexOutOfRange <==> ev == KeyDown(Return) && !(0 <= hover < |entries|)
    ensures o == Moved <==> IsArrow(ev)
    ensures o == Closed <==> ev == KeyDown(Escape)
  {
    match ev
    case KeyDown(DownArrow) => Moved
    case KeyDown(UpArrow) => Moved
    case KeyDown(Return) =>
      if 0 <= hover < |entries| then Selected(entries[hover].index) else IndexOutOfRange
    case KeyDown(Escape) => Closed
    case _ => Ignored
  }

  /** Once the hovered row exists, no event moves it off the list. */
  lemma StepKeepsInRange(c: Cursor, count: int, ev: Event)
    requires 0 <= c.hover < count
    ensures 0 <= Step(c, count, ev).hover < count
  {
  }

  /** On a non-empty list, Down from any row at or above the top lands on an
      existing row (it clamps a row past the end back to the last one). */
  lemma DownEntersRange(c: Cursor, count: int)
    requires count > 0 && c.hover >= -1
    ensures 0 <= Step(c, count, KeyDown(DownArrow)).hover < count
  {
  }

  /** Down on an empty list hovers row -1, and Return then fails. */
  lemma DownOnEmptyList(c: Cursor)
    requires c.hover >= -1
    ensures Step(c, 0, KeyDown(DownArrow)) == Cursor(-1, -1)
    ensures React([], -1, KeyDown(Return)) == IndexOutOfRange
  {
  }

  /** Return reports the hovered entry's position in the full option list,
      which is an option the filter keeps. */
  lemma ReturnSelectsOriginalOption(items: seq<string>, filter: string, hover: int)
    requires 0 <= hover < |Matches(items, filter)|
    ensures React(Matches(items, filter), hover, KeyDown(Return)).Selected?
    ensures var i := React(Matches(items, filter), hover, KeyDown(Return)).option;
      0 <= i < |items| && Keeps(items[i], filter) &&
      Matches(items, filter)[hover] == Entry(i, items[i])
  {
  }

  /** Right after opening (empty filter, hover on the current option) Return
      selects the current option again, provided no option is empty. */
  lemma ReturnOnOpenSelectsCurrent(items: seq<string>, current: int)
    requires forall i :: 0 <= i < |items| ==> items[i] != ""
    requires 0 <= current < |items|
    ensures React(Matches(items, ""), current, KeyDown(Return)) == Selected(current)
  {
    EmptyFilterListsAll(items);
  }
}
