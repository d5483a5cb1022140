/** The row-selection rules of the artworks table, as pure transitions on the
    selection (an ordered sequence of artwork ids), the pending quota and the
    ids of the page on display. */
module Selection {
  import opened JsArray

  datatype Option<T> = None | Some(value: T)

  /** The selection together with the number of ids still to be picked from
      pages loaded later. */
  datatype Carry = Carry(selected: seq<int>, remaining: int)

  // ---------------------------------------------------------------------
  // Single-row checkbox

  /** Flipping one row's checkbox: an id that is not selected is appended;
      a selected id has every copy of it removed. */
  function Toggle(sel: seq<int>, id: int): (r: seq<int>)
    ensures forall x :: x in r <==> (if x == id then id !in sel else x in sel)
    ensures id !in sel ==> r == sel + [id]
    ensures NoDup(sel) ==> NoDup(r)
  {
    if id !in sel then
      AppendNoDup(sel, [id]);
      sel + [id]
    else
      FilterOut(sel, [id])
  }

  /** Flipping a selected id off keeps every other id, each as often as
      before and in the same order. */
  lemma ToggleRemovesEveryCopy(sel: seq<int>, id: int)
    requires id in sel
    ensures IsSubsequence(Toggle(sel, id), sel)
    ensures forall x :: x != id ==> multiset(Toggle(sel, id))[x] == multiset(sel)[x]
  {
    FilterOutKeepsOrder(sel, [id]);
  }

  /** Flipping the same checkbox twice selects the same ids as before; when
      the id was not selected it gives back the very same sequence. */
  lemma ToggleTwice(sel: seq<int>, id: int)
    ensures forall x :: x in Toggle(Toggle(sel, id), id) <==> x in sel
    ensures id !in sel ==> Toggle(Toggle(sel, id), id) == sel
  {
    if id !in sel {
      FilterOutAppend(sel, [id], [id]);
      FilterOutKeepsAll(sel, [id]);
      FilterOutDropsAll([id], [id]);
    }
  }

  /** When the id was selected, flipping twice moves it to the end. */
  lemma ToggleTwiceMovesToEnd(sel: seq<int>, id: int)
    requires id in sel
    ensures Toggle(Toggle(sel, id), id) == FilterOut(sel, [id]) + [id]
  {
  }

  /** So flipping twice does not always give back the same sequence. */
  lemma ToggleTwiceReorders()
    ensures Toggle(Toggle([1, 2], 1), 1) == [2, 1]
  {
    assert Toggle([1, 2], 1) == [2] by {
      assert [1, 2][1..] == [2];
      FilterOutKeepsAll([2], [1]);
    }
  }

  /** Flipping a checkbox for each id of `ids` in turn. */
  ghost function ToggleEach(sel: seq<int>, ids: seq<int>): seq<int>
    decreases |ids|
  {
    if ids == [] then sel else ToggleEach(Toggle(sel, ids[0]), ids[1..])
  }

  /** Whether `x` occurs an odd number of times in `ids`. */
  ghost predicate OddTimes(ids: seq<int>, x: int)
    decreases |ids|
  {
    ids != [] && ((ids[0] == x) != OddTimes(ids[1..], x))
  }

  /** `OddTimes` is what its name says: the count of `x` in `ids` is odd. */
  lemma {:induction false} OddTimesCounts(ids: seq<int>, x: int)
    ensures OddTimes(ids, x) <==> multiset(ids)[x] % 2 == 1
    decreases |ids|
  {
    if ids != [] {
      OddTimesCounts(ids[1..], x);
      assert ids == [ids[0]] + ids[1..];
      var n := multiset(ids[1..])[x];
      assert multiset(ids)[x] == n + (if ids[0] == x then 1 else 0);
      assert (n + 1) % 2 == 1 <==> n % 2 != 1 by {
        if n % 2 == 1 { assert n + 1 == 2 * (n / 2 + 1); }
      }
    }
  }

  /** After a series of single-row flips, an id is selected exactly when it
      was selected before and was flipped an even number of times, or it was
      not and was flipped an odd number of times. */
  lemma {:induction false} ToggleEachParity(sel: seq<int>, ids: seq<int>, x: int)
    ensures x in ToggleEach(sel, ids) <==> ((x in sel) != OddTimes(ids, x))
    decreases |ids|
  {
    if ids != [] {
      var id, rest := ids[0], ids[1..];
      var first := Toggle(sel, id);
      ToggleEachParity(first, rest, x);
      assert ToggleEach(sel, ids) == ToggleEach(first, rest);
      assert x in first <==> (if x == id then id !in sel else x in sel);
    }
  }

  // ---------------------------------------------------------------------
  // Header checkbox

  /** Checking the header adds every id of the page to the selection, as a
      JavaScript `Set` built from the selection followed by the page. */
  function CheckPage(sel: seq<int>, page: seq<int>): (r: seq<int>)
    ensures NoDup(r)
    ensures forall x :: x in r <==> x in sel || x in page
  {
    Dedup(sel + page)
  }

  /** Checking the header keeps the ids selected before first, in the order of
      their first occurrence, and adds the page ids not already selected
      after them, in page order. Without repetitions in the selection and the
      page this is the selection followed by the page's unselected ids. */
  lemma CheckPageOrder(sel: seq<int>, page: seq<int>)
    ensures CheckPage(sel, page) == Dedup(sel) + DedupFrom(page, Elems(sel))
    ensures IsSubsequence(DedupFrom(page, Elems(sel)), page)
    ensures NoDup(sel) ==> CheckPage(sel, page) == sel + DedupFrom(page, Elems(sel))
    ensures NoDup(sel) && NoDup(page) ==> CheckPage(sel, page) == sel + FilterOut(page, sel)
  {
    DedupFromAppend(sel, page, {});
    assert {} + Elems(sel) == Elems(sel);
    DedupFromKeepsOrder(page, Elems(sel));
    if NoDup(sel) {
      DedupOfDistinct(sel);
      if NoDup(page) {
        DedupFromDistinct(page, Elems(sel), sel);
      }
    }
  }

  /** Unchecking the header removes every id of the page from the selection. */
  function UncheckPage(sel: seq<int>, page: seq<int>): (r: seq<int>)
    ensures forall x :: x in r <==> x in sel && x !in page
    ensures NoDup(sel) ==> NoDup(r)
  {
    FilterOut(sel, page)
  }

  /** Unchecking keeps every id of other pages, each as often as before and
      in the same order. */
  lemma UncheckKeepsOthers(sel: seq<int>, page: seq<int>)
    ensures IsSubsequence(UncheckPage(sel, page), sel)
    ensures forall x :: x !in page ==> multiset(UncheckPage(sel, page))[x] == multiset(sel)[x]
  {
    FilterOutKeepsOrder(sel, page);
  }

  /** Whether the header checkbox shows as checked: the page has rows and
      each of them is selected. */
  predicate AllSelected(sel: seq<int>, page: seq<int>) {
    |page| > 0 && forall i :: 0 <= i < |page| ==> page[i] in sel
  }

  /** The header shows as checked exactly when the page is not empty and
      all of its ids are selected; an empty page never shows as checked. */
  lemma AllSelectedIff(sel: seq<int>, page: seq<int>)
    ensures AllSelected(sel, page) <==> page != [] && forall x :: x in page ==> x in sel
  {
    if page != [] && forall x :: x in page ==> x in sel {
      forall i | 0 <= i < |page| ensures page[i] in sel {
        var x := page[i];
        assert x in page;
      }
    }
  }

  /** After checking a page that has rows, the header shows as checked. */
  lemma HeaderAfterCheck(sel: seq<int>, page: seq<int>)
    requires page != []
    ensures AllSelected(CheckPage(sel, page), page)
  {
    AllSelectedIff(CheckPage(sel, page), page);
  }

  /** After unchecking, the header shows as unchecked. */
  lemma HeaderAfterUncheck(sel: seq<int>, page: seq<int>)
    ensures !AllSelected(UncheckPage(sel, page), page)
  {
    if page != [] {
      var x := page[0];
      assert x in page;
    }
  }

  /** With no repetitions in the selection, the header shows as checked
      exactly when the page has rows and checking it would change nothing. */
  lemma HeaderCheckedIffNothingToAdd(sel: seq<int>, page: seq<int>)
    requires NoDup(sel)
    ensures AllSelected(sel, page) <==> page != [] && CheckPage(sel, page) == sel
  {
    CheckPageOrder(sel, page);
    AllSelectedIff(sel, page);
    var added := DedupFrom(page, Elems(sel));
    if AllSelected(sel, page) {
      DedupFromAllSeen(page, Elems(sel));
    }
    if page != [] && CheckPage(sel, page) == sel {
      assert added == [];
      forall x | x in page ensures x in sel {
        assert x !in added;
      }
    }
  }

  /** A click on the header: the widget reports the opposite of what it
      shows, so a checked header unchecks the page and an unchecked one
      checks it. */
  function HeaderClick(sel: seq<int>, page: seq<int>): (r: seq<int>)
    ensures AllSelected(sel, page) ==> forall x :: x in r <==> x in sel && x !in page
    ensures !AllSelected(sel, page) ==> forall x :: x in r <==> x in sel || x in page
  {
    if AllSelected(sel, page) then UncheckPage(sel, page) else CheckPage(sel, page)
  }

  /** Two clicks on the header give back the same sequence when no id of the
      page was selected and the selection has no repetitions. */
  lemma HeaderClickTwiceFromNone(sel: seq<int>, page: seq<int>)
    requires NoDup(sel)
    requires forall x :: x in page ==> x !in sel
    ensures HeaderClick(HeaderClick(sel, page), page) == sel
  {
    CheckPageOrder(sel, page);
    var added := DedupFrom(page, Elems(sel));
    if page == [] {
      assert added == [];
      assert HeaderClick(sel, page) == sel;
    } else {
      var x := page[0];
      assert x in page;
      assert !AllSelected(sel, page);
      var once := sel + added;
      assert HeaderClick(sel, page) == once;
      HeaderAfterCheck(sel, page);
      assert HeaderClick(once, page) == FilterOut(once, page);
      FilterOutAppend(sel, added, page);
      FilterOutKeepsAll(sel, page);
      FilterOutDropsAll(added, page);
    }
  }

  /** Two clicks on the header starting from a fully selected page select the
      same ids as before. */
  lemma HeaderClickTwiceFromAll(sel: seq<int>, page: seq<int>)
    requires AllSelected(sel, page)
    ensures forall x :: x in HeaderClick(HeaderClick(sel, page), page) <==> x in sel
  {
    AllSelectedIff(sel, page);
    HeaderAfterUncheck(sel, page);
  }

  /** With part of the page selected, two clicks drop the ids that were
      selected before: the pair of clicks is not undone. */
  lemma HeaderClickTwicePartial()
    ensures HeaderClick(HeaderClick([1], [1, 2]), [1, 2]) == []
  {
    var page := [1, 2];
    assert !AllSelected([1], page) by { assert page[1] == 2; }
    var once := HeaderClick([1], page);
    HeaderAfterCheck([1], page);
    assert AllSelected(once, page);
    AllSelectedIff(once, page);
    FilterOutDropsAll(once, page);
  }

  // ---------------------------------------------------------------------
  // "Select first N" and the quota carried to later pages

  /** The first `n` ids of the page that are not yet selected, in page order,
      with JavaScript's `slice(0, n)` for the count. */
  function FirstUnselected(page: seq<int>, sel: seq<int>, n: int): (r: seq<int>)
    ensures r <= FilterOut(page, sel)
    ensures forall x :: x in r ==> x in page && x !in sel
    ensures 0 <= n ==> |r| == if n < |FilterOut(page, sel)| then n else |FilterOut(page, sel)|
    ensures n < 0 ==> |r| == if -n < |FilterOut(page, sel)| then |FilterOut(page, sel)| + n else 0
    ensures NoDup(page) ==> NoDup(r)
  {
    var unselected := FilterOut(page, sel);
    var r := SliceFront(unselected, n);
    assert forall x :: x in r ==> x in unselected by {
      forall x | x in r ensures x in unselected {
        var k :| 0 <= k < |r| && r[k] == x;
        assert unselected[k] == x;
      }
    }
    r
  }

  /** The ids picked keep their page order. */
  lemma FirstUnselectedInPageOrder(page: seq<int>, sel: seq<int>, n: int)
    ensures IsSubsequence(FirstUnselected(page, sel, n), page)
  {
    var unselected := FilterOut(page, sel);
    FilterOutKeepsOrder(page, sel);
    PrefixIsSubsequence(unselected, page, |FirstUnselected(page, sel, n)|);
  }

  /** Appending the first unselected ids of a page keeps the selection as a
      prefix and free of repetitions when the page has none; when fewer ids
      than asked for were found, every id of the page is then selected. */
  lemma AppendFirstUnselected(sel: seq<int>, page: seq<int>, n: int)
    ensures var picked := FirstUnselected(page, sel, n);
      && (sel + picked)[|sel|..] == picked
      && (NoDup(sel) && NoDup(page) ==> NoDup(sel + picked))
      && (0 <= n && |picked| < n ==> forall x :: x in page ==> x in sel + picked)
  {
    var picked := FirstUnselected(page, sel, n);
    assert (sel + picked)[|sel|..] == picked;
    if NoDup(sel) && NoDup(page) {
      AppendNoDup(sel, picked);
    }
    if 0 <= n && |picked| < n {
      assert picked == FilterOut(page, sel);
      forall x | x in page ensures x in sel + picked {
        if x !in sel {
          assert x in picked;
        }
      }
    }
  }

  /** The "select" button: a target that is unset or zero changes nothing;
      otherwise the first unselected ids of the page, up to the target, are
      appended and the rest of the target becomes the quota, replacing any
      quota still pending. A negative target is not refused: `slice` then
      drops ids from the end and the quota becomes negative. */
  function SelectFirst(sel: seq<int>, rem: int, page: seq<int>, target: Option<int>): (r: Carry)
    ensures target.None? || target.value == 0 ==> r == Carry(sel, rem)
    ensures sel <= r.selected
    ensures target.Some? && target.value != 0 ==>
              && r.selected[|sel|..] <= FilterOut(page, sel)
              && |r.selected| + r.remaining == |sel| + target.value
    ensures forall x :: x in r.selected[|sel|..] ==> x in page && x !in sel
    ensures target.Some? && target.value > 0 ==>
              0 <= r.remaining <= target.value && |r.selected| - |sel| <= target.value
    ensures target.Some? && target.value > 0 && r.remaining > 0 ==>
              forall x :: x in page ==> x in r.selected
    ensures target.Some? && target.value > 0 ==>
              |r.selected| - |sel| == if target.value < |FilterOut(page, sel)| then target.value
                                      else |FilterOut(page, sel)|
    ensures target.Some? && target.value < 0 ==>
              |r.selected| - |sel| == if -target.value < |FilterOut(page, sel)|
                                      then |FilterOut(page, sel)| + target.value else 0
    ensures target.Some? && target.value < 0 ==> r.remaining < 0
    ensures NoDup(sel) && NoDup(page) ==> NoDup(r.selected)
  {
    if target.None? || target.value == 0 then Carry(sel, rem)
    else
      var picked := FirstUnselected(page, sel, target.value);
      AppendFirstUnselected(sel, page, target.value);
      Carry(sel + picked, target.value - |picked|)
  }

  /** Loading a page while a quota is pending: the first unselected ids of
      the page, up to the quota, are appended and the quota drops by their
      number. A quota of zero or less, or a page with nothing new, changes
      nothing. */
  function FillQuota(sel: seq<int>, rem: int, fetched: seq<int>): (r: Carry)
    ensures rem <= 0 ==> r == Carry(sel, rem)
    ensures sel <= r.selected
    ensures |r.selected| + r.remaining == |sel| + rem
    ensures r.selected[|sel|..] <= FilterOut(fetched, sel)
    ensures forall x :: x in r.selected[|sel|..] ==> x in fetched && x !in sel
    ensures 0 < rem ==> 0 <= r.remaining <= rem
    ensures 0 < rem ==>
              |r.selected| - |sel| == if rem < |FilterOut(fetched, sel)| then rem
                                      else |FilterOut(fetched, sel)|
    ensures 0 < r.remaining ==> forall x :: x in fetched ==> x in r.selected
    ensures NoDup(sel) && NoDup(fetched) ==> NoDup(r.selected)
  {
    if rem > 0 then
      var unselected := FirstUnselected(fetched, sel, rem);
      AppendFirstUnselected(sel, fetched, rem);
      if |unselected| > 0 then Carry(sel + unselected, rem - |unselected|)
      else Carry(sel, rem)
    else
      Carry(sel, rem)
  }

  /** Loading each page of `pages` in turn. */
  ghost function FillEach(c: Carry, pages: seq<seq<int>>): Carry
    decreases |pages|
  {
    if pages == [] then c
    else FillEach(FillQuota(c.selected, c.remaining, pages[0]), pages[1..])
  }

  /** Over any series of page loads the quota never grows and never goes
      below zero, every id it takes off is an id appended to the selection,
      nothing selected is dropped, and while some quota is left every id of
      every loaded page is selected. */
  lemma {:induction false} FillEachKeepsCount(c: Carry, pages: seq<seq<int>>)
    requires 0 <= c.remaining
    ensures var d := FillEach(c, pages);
      && 0 <= d.remaining <= c.remaining
      && c.selected <= d.selected
      && |d.selected| + d.remaining == |c.selected| + c.remaining
      && (0 < d.remaining ==> forall i, x :: 0 <= i < |pages| && x in pages[i] ==> x in d.selected)
    decreases |pages|
  {
    if pages != [] {
      var c' := FillQuota(c.selected, c.remaining, pages[0]);
      FillEachKeepsCount(c', pages[1..]);
      var d := FillEach(c, pages);
      assert d == FillEach(c', pages[1..]);
      if 0 < d.remaining {
        forall i, x | 0 <= i < |pages| && x in pages[i] ensures x in d.selected {
          if i == 0 {
            assert x in c'.selected;
            var k :| 0 <= k < |c'.selected| && c'.selected[k] == x;
            assert d.selected[k] == x;
          } else {
            assert pages[1..][i - 1] == pages[i];
          }
        }
      }
    }
  }

  /** "Select first N" with a positive N followed by any series of page
      loads: exactly N minus the pending quota ids have been appended to the
      selection, never more than N, and while the quota is not used up every
      id of the page on display and of every later page is selected. */
  lemma SelectThenLoad(sel: seq<int>, rem: int, page: seq<int>, n: int, pages: seq<seq<int>>)
    requires 0 < n
    ensures var d := FillEach(SelectFirst(sel, rem, page, Some(n)), pages);
      && sel <= d.selected
      && 0 <= d.remaining <= n
      && |d.selected| - |sel| == n - d.remaining
      && (0 < d.remaining ==> forall x :: x in page ==> x in d.selected)
      && (0 < d.remaining ==> forall i, x :: 0 <= i < |pages| && x in pages[i] ==> x in d.selected)
  {
    var c := SelectFirst(sel, rem, page, Some(n));
    FillEachKeepsCount(c, pages);
    var d := FillEach(c, pages);
    if 0 < d.remaining {
      forall x | x in page ensures x in d.selected {
        var k :| 0 <= k < |c.selected| && c.selected[k] == x;
        assert d.selected[k] == x;
      }
    }
  }

  /** Five rows on display, N = 7: the five are selected at once and two are
      carried over. */
  lemma SelectSevenOfFive()
    ensures SelectFirst([], 0, [1, 2, 3, 4, 5], Some(7)) == Carry([1, 2, 3, 4, 5], 2)
  {
    assert FirstUnselected([1, 2, 3, 4, 5], [], 7) == [1, 2, 3, 4, 5] by {
      FilterOutKeepsAll([1, 2, 3, 4, 5], []);
    }
  }

  /** The next page of five supplies the two carried over. */
  lemma CarryTwoToNextPage()
    ensures FillQuota([1, 2, 3, 4, 5], 2, [6, 7, 8, 9, 10]) == Carry([1, 2, 3, 4, 5, 6, 7], 0)
  {
    assert FirstUnselected([6, 7, 8, 9, 10], [1, 2, 3, 4, 5], 2) == [6, 7] by {
      FilterOutKeepsAll([6, 7, 8, 9, 10], [1, 2, 3, 4, 5]);
    }
  }

  /** A negative target still appends ids: with nothing selected, N = -1
      takes all but the last unselected id and leaves a negative quota. */
  lemma NegativeTargetSelects()
    ensures SelectFirst([], 0, [1, 2, 3], Some(-1)) == Carry([1, 2], -3)
  {
    assert FirstUnselected([1, 2, 3], [], -1) == [1, 2] by {
      FilterOutKeepsAll([1, 2, 3], []);
    }
  }

  /** An id repeated on the page is selected as many times as it occurs:
      the page is not de-duplicated before `slice`. */
  lemma RepeatedPageIdSelectedTwice()
    ensures SelectFirst([], 0, [3, 3], Some(5)) == Carry([3, 3], 3)
  {
  }
}
