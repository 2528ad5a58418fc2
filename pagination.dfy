/**
 * The page navigator under the catalog grid: which page buttons to show,
 * when Previous and Next are disabled, and where an ellipsis marks skipped pages.
 */
module Pagination {
  import opened Collections
  import opened StableSort

  /** `(a, b) => a - b`. */
  function NumericOrder(): (int, int) -> int {
    (a: int, b: int) => a - b
  }

  lemma NumericOrderIsTotalPreorder()
    ensures TotalPreorder(NumericOrder())
  {
  }

  predicate StrictlyAscending(s: seq<int>) {
    forall i, j :: 0 <= i < j < |s| ==> s[i] < s[j]
  }

  /** The pages `getPages` lists: the first, the last, and the neighbours of the current page strictly between them. */
  predicate Listed(p: int, current: int, total: int) {
    p == 1 || p == total || (1 < p < total && current - 1 <= p <= current + 1)
  }

  /** The `Set` `getPages` fills: 1, `total`, then each page of the window strictly between them, in insertion order. */
  method CollectPages(current: int, total: int) returns (chosen: seq<int>)
    ensures NoDuplicates(chosen)
    ensures forall p :: p in chosen <==> Listed(p, current, total)
    ensures |chosen| <= 5
  {
    chosen := [1];
    if total !in chosen {
      chosen := chosen + [total];
    }
    var i := current - 1;
    while i <= current + 1
      invariant current - 1 <= i <= current + 2
      invariant NoDuplicates(chosen)
      invariant |chosen| <= 2 + (i - (current - 1))
      invariant forall p :: p in chosen <==> p == 1 || p == total || (1 < p < total && current - 1 <= p < i)
    {
      if i > 1 && i < total && i !in chosen {
        chosen := chosen + [i];
      }
      i := i + 1;
    }
  }

  /** Distinct numbers in numeric order are strictly ascending. */
  lemma SortedDistinctAscending(pages: seq<int>)
    requires SortedBy(pages, NumericOrder()) && NoDuplicates(pages)
    ensures StrictlyAscending(pages)
  {
    forall a, b | 0 <= a < b < |pages| ensures pages[a] < pages[b] {
      assert NumericOrder()(pages[a], pages[b]) <= 0;
    }
  }

  /** A rearrangement has the same elements and the same length. */
  lemma PermutationMembers(pages: seq<int>, chosen: seq<int>)
    requires multiset(pages) == multiset(chosen)
    ensures |pages| == |chosen|
    ensures forall p :: p in pages <==> p in chosen
  {
    forall p ensures p in pages <==> p in chosen {
      assert p in pages <==> p in multiset(pages);
    }
    assert |pages| == |multiset(pages)| == |multiset(chosen)| == |chosen|;
  }

  /** Sorting distinct numbers numerically leaves them strictly ascending. */
  lemma SortDistinctAscending(chosen: seq<int>)
    requires NoDuplicates(chosen)
    ensures var pages := SortWith(chosen, NumericOrder());
      && StrictlyAscending(pages)
      && |pages| == |chosen|
      && forall p :: p in pages <==> p in chosen
  {
    var pages := SortWith(chosen, NumericOrder());
    NumericOrderIsTotalPreorder();
    SortWithCorrect(chosen, NumericOrder());
    NoDuplicatesPermutation(chosen, pages);
    PermutationMembers(pages, chosen);
    SortedDistinctAscending(pages);
  }

  /** `getPages`: the collected pages sorted numerically. */
  method GetPages(current: int, total: int) returns (pages: seq<int>)
    ensures StrictlyAscending(pages)
    ensures 1 in pages && total in pages
    ensures forall p :: p in pages <==> Listed(p, current, total)
    ensures |pages| <= 5
    ensures total >= 1 ==> forall p :: p in pages ==> 1 <= p <= total
  {
    var chosen := CollectPages(current, total);
    pages := SortWith(chosen, NumericOrder());
    SortDistinctAscending(chosen);
  }

  /** Previous or Next: the page it asks for and whether it is disabled. */
  datatype NavButton = NavButton(target: int, disabled: bool)

  /** A numbered button: its page, whether it is the current one, and whether an ellipsis precedes it. */
  datatype PageButton = PageButton(page: int, active: bool, gapBefore: bool)

  datatype PaginationView = Hidden | Shown(previous: NavButton, buttons: seq<PageButton>, next: NavButton)

  /** The numbered buttons for the listed pages. */
  function PageButtons(pages: seq<int>, current: int): (r: seq<PageButton>)
    ensures |r| == |pages|
    ensures forall i :: 0 <= i < |r| ==> r[i].page == pages[i] && (r[i].active <==> pages[i] == current)
    ensures forall i :: 0 <= i < |r| ==> (r[i].gapBefore <==> i > 0 && pages[i] - pages[i - 1] > 1)
  {
    seq(|pages|, i requires 0 <= i < |pages| =>
      PageButton(pages[i], pages[i] == current, i > 0 && pages[i] - pages[i - 1] > 1))
  }

  /** The `Pagination` component: nothing for a single page, otherwise Previous, the page buttons and Next. */
  method Render(current: int, total: int) returns (view: PaginationView)
    ensures view.Hidden? <==> total <= 1
    ensures view.Shown? ==>
      && view.previous == NavButton(current - 1, current == 1)
      && view.next == NavButton(current + 1, current == total)
      && (forall i, j :: 0 <= i < j < |view.buttons| ==> view.buttons[i].page < view.buttons[j].page)
      && (forall p :: (exists i :: 0 <= i < |view.buttons| && view.buttons[i].page == p) <==> Listed(p, current, total))
      && (forall i :: 0 <= i < |view.buttons| ==> (view.buttons[i].gapBefore <==> HiddenBefore(view.buttons, i, current, total)))
      && (forall i :: 0 <= i < |view.buttons| ==> (view.buttons[i].active <==> view.buttons[i].page == current))
      && (1 <= current <= total ==> exists i :: 0 <= i < |view.buttons| && view.buttons[i].active)
  {
    if total <= 1 {
      return Hidden;
    }
    var pages := GetPages(current, total);
    var buttons := PageButtons(pages, current);
    ButtonsShowListedPages(pages, buttons, current, total);
    view := Shown(NavButton(current - 1, current == 1), buttons, NavButton(current + 1, current == total));
  }

  /** The buttons for the listed pages: one per listed page, the right one active, ellipses where pages are skipped. */
  lemma ButtonsShowListedPages(pages: seq<int>, buttons: seq<PageButton>, current: int, total: int)
    requires StrictlyAscending(pages)
    requires forall p :: p in pages <==> Listed(p, current, total)
    requires buttons == PageButtons(pages, current)
    ensures forall i, j :: 0 <= i < j < |buttons| ==> buttons[i].page < buttons[j].page
    ensures forall p :: (exists i :: 0 <= i < |buttons| && buttons[i].page == p) <==> Listed(p, current, total)
    ensures forall i :: 0 <= i < |buttons| ==> (buttons[i].gapBefore <==> HiddenBefore(buttons, i, current, total))
    ensures forall i :: 0 <= i < |buttons| ==> (buttons[i].active <==> buttons[i].page == current)
    ensures Listed(current, current, total) ==> exists i :: 0 <= i < |buttons| && buttons[i].active
  {
    forall p ensures (exists i :: 0 <= i < |buttons| && buttons[i].page == p) <==> Listed(p, current, total) {
      if p in pages {
        var i :| 0 <= i < |pages| && pages[i] == p;
        assert buttons[i].page == p;
      }
    }
    forall i | 0 <= i < |buttons| ensures buttons[i].gapBefore <==> HiddenBefore(buttons, i, current, total) {
      GapIffSkipped(pages, buttons, i, current, total);
    }
    if Listed(current, current, total) {
      var k :| 0 <= k < |pages| && pages[k] == current;
      assert buttons[k].active;
    }
  }

  /** Some page between button `i - 1` and button `i` has no button of its own. */
  predicate HiddenBefore(buttons: seq<PageButton>, i: int, current: int, total: int)
    requires 0 <= i < |buttons|
  {
    i > 0 && exists p :: buttons[i - 1].page < p < buttons[i].page && !Listed(p, current, total)
  }

  /** The ellipsis appears exactly where listed pages skip over an unlisted one. */
  lemma GapIffSkipped(pages: seq<int>, buttons: seq<PageButton>, i: int, current: int, total: int)
    requires StrictlyAscending(pages)
    requires forall p :: p in pages <==> Listed(p, current, total)
    requires buttons == PageButtons(pages, current)
    requires 0 <= i < |buttons|
    ensures buttons[i].gapBefore <==> HiddenBefore(buttons, i, current, total)
  {
    if i > 0 {
      var lo, hi := pages[i - 1], pages[i];
      if hi - lo > 1 {
        var p := lo + 1;
        forall k | 0 <= k < |pages| ensures pages[k] != p {
          if k < i {
            assert pages[k] <= lo;
          } else {
            assert pages[k] >= hi;
          }
        }
        assert p !in pages;
      }
    }
  }
}
