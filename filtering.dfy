/** What FilteredList.UpdateFilter computes, stated independently of its
    loop: which options a filter keeps, and the order in which the kept
    options are listed. */
module Filtering {
  import opened Folding

  /** One row of the filtered list: the option's position in the full list
      of options and its text. */
  datatype Entry = Entry(index: int, text: string)

  /** An option survives the filter when the filter is empty or the
      lower-cased option contains the lower-cased filter. */
  /** Since every string contains the empty string, the empty-filter guard
      does not change the verdict; an option equal to the filter ignoring
      case is always kept. */
  predicate Keeps(item: string, filter: string)
    ensures Keeps(item, filter) <==> exists i :: OccursAt(Lower(item), Lower(filter), i)
    ensures EqualsIgnoreCase(item, filter) ==> Keeps(item, filter)
  {
    ContainsSelf(Lower(item));
    EqualsIgnoreCaseContains(item, filter);
    filter == "" || Contains(Lower(item), Lower(filter))
  }

  /** Some entry of `entries` refers to option `i`. */
  predicate Lists(entries: seq<Entry>, i: int)
  {
    exists k :: 0 <= k < |entries| && entries[k].index == i
  }

  /** Entry `e` is option `e.index` of `items`, unchanged. */
  predicate WellFormed(items: seq<string>, e: Entry)
  {
    0 <= e.index < |items| && e.text == items[e.index]
  }

  /** The sequence back to front. */
  function Reversed<T>(s: seq<T>): (r: seq<T>)
    ensures |r| == |s|
    ensures forall k :: 0 <= k < |s| ==> r[k] == s[|s| - 1 - k]
  {
    if s == [] then [] else Reversed(s[1..]) + [s[0]]
  }

  /** The kept options among the first `n` whose exactness is `exact`,
      in increasing index order. */
  function Select(items: seq<string>, filter: string, exact: bool, n: nat): (r: seq<Entry>)
    requires n <= |items|
    ensures |r| <= n
    ensures forall k :: 0 <= k < |r| ==>
      WellFormed(items, r[k]) && r[k].index < n &&
      Keeps(r[k].text, filter) && EqualsIgnoreCase(r[k].text, filter) == exact
    ensures forall j, k :: 0 <= j < k < |r| ==> r[j].index < r[k].index
  {
    if n == 0 then []
    else
      var prev := Select(items, filter, exact, n - 1);
      if Keeps(items[n - 1], filter) && EqualsIgnoreCase(items[n - 1], filter) == exact
      then prev + [Entry(n - 1, items[n - 1])]
      else prev
  }

  /** The entries for `filter`: the exact matches in decreasing index order,
      then the other kept options in increasing index order. */
  function Matches(items: seq<string>, filter: string): (r: seq<Entry>)
    ensures forall k :: 0 <= k < |r| ==> WellFormed(items, r[k]) && Keeps(r[k].text, filter)
  {
    var exact := Select(items, filter, true, |items|);
    var r := Reversed(exact) + Select(items, filter, false, |items|);
    forall k | 0 <= k < |r|
      ensures WellFormed(items, r[k]) && Keeps(r[k].text, filter)
    {
      MatchesAt(items, filter, k);
    }
    r
  }

  /** Where entry `k` of Matches comes from: the exact matches occupy the
      front, back to front, and the other kept options the rest. */
  lemma MatchesAt(items: seq<string>, filter: string, k: int)
    requires 0 <= k < |Reversed(Select(items, filter, true, |items|)) + Select(items, filter, false, |items|)|
    ensures var exact, others := Select(items, filter, true, |items|), Select(items, filter, false, |items|);
      var r := Reversed(exact) + others;
      (k < |exact| ==> r[k] == exact[|exact| - 1 - k]) &&
      (k >= |exact| ==> r[k] == others[k - |exact|]) &&
      (EqualsIgnoreCase(r[k].text, filter) <==> k < |exact|)
  {
  }

  /** Every exact match comes before every other entry. */
  lemma MatchesExactFirst(items: seq<string>, filter: string, j: int, k: int)
    requires 0 <= j < |Matches(items, filter)| && 0 <= k < |Matches(items, filter)|
    requires EqualsIgnoreCase(Matches(items, filter)[j].text, filter)
    requires !EqualsIgnoreCase(Matches(items, filter)[k].text, filter)
    ensures j < k
  {
    MatchesAt(items, filter, j);
    MatchesAt(items, filter, k);
  }

  /** Exact matches are listed in decreasing index order (each one found is
      put in front of those found before it). */
  lemma MatchesExactDescending(items: seq<string>, filter: string, j: int, k: int)
    requires 0 <= j < k < |Matches(items, filter)|
    requires EqualsIgnoreCase(Matches(items, filter)[k].text, filter)
    ensures EqualsIgnoreCase(Matches(items, filter)[j].text, filter)
    ensures Matches(items, filter)[j].index > Matches(items, filter)[k].index
  {
    MatchesAt(items, filter, j);
    MatchesAt(items, filter, k);
  }

  /** The other entries keep the original index order. */
  lemma MatchesOthersAscending(items: seq<string>, filter: string, j: int, k: int)
    requires 0 <= j < k < |Matches(items, filter)|
    requires !EqualsIgnoreCase(Matches(items, filter)[j].text, filter)
    ensures !EqualsIgnoreCase(Matches(items, filter)[k].text, filter)
    ensures Matches(items, filter)[j].index < Matches(items, filter)[k].index
  {
    MatchesAt(items, filter, j);
    MatchesAt(items, filter, k);
  }

  /** No option is listed twice. */
  lemma MatchesNoDuplicates(items: seq<string>, filter: string, j: int, k: int)
    requires 0 <= j < k < |Matches(items, filter)|
    ensures Matches(items, filter)[j].index != Matches(items, filter)[k].index
  {
    MatchesAt(items, filter, j);
    MatchesAt(items, filter, k);
  }

  /** Select lists every option it should. */
  lemma {:induction false} SelectComplete(items: seq<string>, filter: string, exact: bool, n: nat, i: int)
    requires n <= |items| && 0 <= i < n
    requires Keeps(items[i], filter) && EqualsIgnoreCase(items[i], filter) == exact
    ensures Lists(Select(items, filter, exact, n), i)
  {
    var s := Select(items, filter, exact, n);
    if i == n - 1 {
      assert s[|s| - 1].index == i;
    } else {
      SelectComplete(items, filter, exact, n - 1, i);
      var prev := Select(items, filter, exact, n - 1);
      var k :| 0 <= k < |prev| && prev[k].index == i;
      assert s[k] == prev[k];
    }
  }

  /** Appending to a sequence prepends to its reversal. */
  lemma ReversedSnoc<T>(s: seq<T>, x: T)
    ensures Reversed(s + [x]) == [x] + Reversed(s)
  {
  }

  /** The entries built from the first `n` options: exact matches reversed,
      then the others. Matches is the case n == |items|. */
  function Prefix(items: seq<string>, filter: string, n: nat): (r: seq<Entry>)
    requires n <= |items|
    ensures n == |items| ==> r == Matches(items, filter)
  {
    Reversed(Select(items, filter, true, n)) + Select(items, filter, false, n)
  }

  /** Taking one more option into account puts it in front when it equals the
      filter ignoring case, at the back when it is merely kept, and nowhere
      otherwise: the step UpdateFilter's loop takes. */
  lemma PrefixStep(items: seq<string>, filter: string, n: nat)
    requires n < |items|
    ensures var e := Entry(n, items[n]);
      Prefix(items, filter, n + 1) ==
        if !Keeps(items[n], filter) then Prefix(items, filter, n)
        else if EqualsIgnoreCase(items[n], filter) then [e] + Prefix(items, filter, n)
        else Prefix(items, filter, n) + [e]
  {
    var e := Entry(n, items[n]);
    var exact, others := Select(items, filter, true, n), Select(items, filter, false, n);
    if Keeps(items[n], filter) && EqualsIgnoreCase(items[n], filter) {
      assert Select(items, filter, true, n + 1) == exact + [e];
      ReversedSnoc(exact, e);
      assert Prefix(items, filter, n + 1) == ([e] + Reversed(exact)) + others;
    } else if Keeps(items[n], filter) {
      assert Select(items, filter, false, n + 1) == others + [e];
      assert Prefix(items, filter, n + 1) == Reversed(exact) + (others + [e]);
    }
  }

  /** The two halves of Matches together hold at most one entry per option. */
  lemma {:induction false} SelectSizes(items: seq<string>, filter: string, n: nat)
    requires n <= |items|
    ensures |Select(items, filter, true, n)| + |Select(items, filter, false, n)| <= n
  {
    if n > 0 {
      SelectSizes(items, filter, n - 1);
    }
  }

  /** Option `i` is listed for `filter` exactly when the filter keeps it. */
  lemma MatchesMembership(items: seq<string>, filter: string, i: int)
    ensures Lists(Matches(items, filter), i) <==> 0 <= i < |items| && Keeps(items[i], filter)
  {
    var r := Matches(items, filter);
    if 0 <= i < |items| && Keeps(items[i], filter) {
      var exact := EqualsIgnoreCase(items[i], filter);
      SelectComplete(items, filter, exact, |items|, i);
      var s := Select(items, filter, exact, |items|);
      var k :| 0 <= k < |s| && s[k].index == i;
      var e := Select(items, filter, true, |items|);
      if exact {
        assert r[|e| - 1 - k] == s[k];
      } else {
        assert r[|e| + k] == s[k];
      }
    }
  }

  /** The filtered list never holds more entries than there are options. */
  lemma MatchesLength(items: seq<string>, filter: string)
    ensures |Matches(items, filter)| <= |items|
  {
    SelectSizes(items, filter, |items|);
  }

  /** An option equal to the filter ignoring case is always kept, so it is
      always listed. */
  lemma ExactIsListed(items: seq<string>, filter: string, i: int)
    requires 0 <= i < |items| && EqualsIgnoreCase(items[i], filter)
    ensures Lists(Matches(items, filter), i)
  {
    MatchesMembership(items, filter, i);
  }

  /** Every option, once, in its original order. */
  function AllEntries(items: seq<string>): (r: seq<Entry>)
    ensures |r| == |items|
    ensures forall k :: 0 <= k < |r| ==> r[k].index == k && WellFormed(items, r[k])
  {
    seq(|items|, k requires 0 <= k < |items| => Entry(k, items[k]))
  }

  /** With the empty filter and no empty option, Select of the non-exact
      options is the whole prefix and Select of the exact ones is empty. */
  lemma {:induction false} SelectEmptyFilter(items: seq<string>, n: nat)
    requires n <= |items|
    requires forall i :: 0 <= i < |items| ==> items[i] != ""
    ensures Select(items, "", true, n) == []
    ensures Select(items, "", false, n) == AllEntries(items)[..n]
  {
    if n > 0 {
      SelectEmptyFilter(items, n - 1);
      LowerEmpty(items[n - 1]);
      LowerEmpty("");
    }
  }

  /** The empty filter lists every option in its original order, provided
      no option is the empty string (an empty option equals the empty
      filter ignoring case and would be moved to the front). */
  lemma EmptyFilterListsAll(items: seq<string>)
    requires forall i :: 0 <= i < |items| ==> items[i] != ""
    ensures Matches(items, "") == AllEntries(items)
  {
    SelectEmptyFilter(items, |items|);
  }

  /** With the empty filter every option is listed, empty or not. */
  lemma EmptyFilterKeepsEvery(items: seq<string>, i: int)
    requires 0 <= i < |items|
    ensures Lists(Matches(items, ""), i)
  {
    MatchesMembership(items, "", i);
  }
}
