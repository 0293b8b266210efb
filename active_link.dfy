/**
 * Which navigation link is active for the current pathname: a link matches
 * when the pathname is the link or lies below it, and the longest matching
 * link wins, the earliest one among equally long links.
 * The sidebar (components/docs/sidebar-wrapper.tsx) computes an index by a
 * fold; a navigation item (components/docs/nav-item.tsx) filters the links
 * and sorts them by descending length.
 */
module ActiveLink {
  import opened Strings

  /** `pathname === link || pathname.startsWith(`${link}/`)`. */
  predicate LinkMatches(pathname: string, link: string) {
    pathname == link || StartsWith(pathname, link + "/")
  }

  /** Link `i` matches, no matching link is longer, and every earlier matching link is shorter. */
  predicate IsFirstLongest(pathname: string, links: seq<string>, i: int) {
    && 0 <= i < |links|
    && LinkMatches(pathname, links[i])
    && (forall k :: 0 <= k < |links| && LinkMatches(pathname, links[k]) ==> |links[k]| <= |links[i]|)
    && (forall k :: 0 <= k < i && LinkMatches(pathname, links[k]) ==> |links[k]| < |links[i]|)
  }

  /** At most one position is the first longest matching link. */
  lemma FirstLongestUnique(pathname: string, links: seq<string>, i: int, j: int)
    requires IsFirstLongest(pathname, links, i) && IsFirstLongest(pathname, links, j)
    ensures i == j
  {
  }

  // ---------------------------------------------------------------------
  // Sidebar: the `activeIndex` reduce

  /** `links[bestIdx]?.length ?? 0`. */
  function BestLength(links: seq<string>, best: int): nat {
    if 0 <= best < |links| then |links[best]| else 0
  }

  /**
   * The reduce after its first `n` steps. The strict comparison against the
   * previous best's length (0 before any match) means an empty link is never
   * chosen and an equally long later link never replaces an earlier one.
   */
  function ActiveIndexOf(pathname: string, links: seq<string>, n: nat): (r: int)
    requires n <= |links|
    ensures r == -1 || (0 <= r < n && LinkMatches(pathname, links[r]) && links[r] != "")
    ensures forall k :: 0 <= k < n && LinkMatches(pathname, links[k]) ==> |links[k]| <= BestLength(links, r)
    ensures forall k :: 0 <= k < r && LinkMatches(pathname, links[k]) ==> |links[k]| < |links[r]|
    ensures r == -1 <==> forall k :: 0 <= k < n && LinkMatches(pathname, links[k]) ==> links[k] == ""
  {
    if n == 0 then -1
    else
      var best := ActiveIndexOf(pathname, links, n - 1);
      var link := links[n - 1];
      if LinkMatches(pathname, link) && |link| > BestLength(links, best) then n - 1 else best
  }

  /** `activeIndex`: the whole reduce, starting from -1. */
  function ActiveIndex(pathname: string, links: seq<string>): int
  {
    ActiveIndexOf(pathname, links, |links|)
  }

  /**
   * The sidebar shows nothing when no non-empty link matches, and otherwise
   * the first longest matching link.
   */
  lemma ActiveIndexIsFirstLongest(pathname: string, links: seq<string>)
    ensures ActiveIndex(pathname, links) == -1 <==>
      forall k :: 0 <= k < |links| && LinkMatches(pathname, links[k]) ==> links[k] == ""
    ensures ActiveIndex(pathname, links) != -1 ==> IsFirstLongest(pathname, links, ActiveIndex(pathname, links))
  {
  }

  /** `children[activeIndex] ?? null`. */
  function RenderedChild<T>(children: seq<T>, activeIndex: int): (r: Option<T>)
    ensures r.Some? <==> 0 <= activeIndex < |children|
    ensures r.Some? ==> r.value == children[activeIndex]
  {
    if 0 <= activeIndex < |children| then Some(children[activeIndex]) else None
  }

  // ---------------------------------------------------------------------
  // Navigation item: filter, stable sort by descending length, head

  /** `allLinks.filter(matches)`, in the original order. */
  function MatchingLinks(pathname: string, links: seq<string>): (r: seq<string>)
    ensures forall k :: 0 <= k < |r| ==> LinkMatches(pathname, r[k]) && r[k] in links
    ensures forall k :: 0 <= k < |links| && LinkMatches(pathname, links[k]) ==> links[k] in r
    ensures r == [] <==> forall k :: 0 <= k < |links| ==> !LinkMatches(pathname, links[k])
  {
    if links == [] then []
    else
      var init := links[..|links| - 1];
      assert forall k :: 0 <= k < |init| ==> init[k] == links[k];
      MatchingLinks(pathname, init) +
        if LinkMatches(pathname, links[|links| - 1]) then [links[|links| - 1]] else []
  }

  /** The filter keeps the matching links of each part, in order: it distributes over concatenation. */
  lemma {:induction false} MatchingLinksConcat(pathname: string, a: seq<string>, b: seq<string>)
    ensures MatchingLinks(pathname, a + b) == MatchingLinks(pathname, a) + MatchingLinks(pathname, b)
    ensures |b| == 1 ==> MatchingLinks(pathname, b) == if LinkMatches(pathname, b[0]) then b else []
    decreases |b|
  {
    if b != [] {
      var bi := b[..|b| - 1];
      assert (a + b)[..|a + b| - 1] == a + bi;
      MatchingLinksConcat(pathname, a, bi);
      if |b| == 1 {
        assert bi == [];
      }
    } else {
      assert a + b == a;
    }
  }

  predicate SortedByLengthDesc(s: seq<string>) {
    forall i, j :: 0 <= i < j < |s| ==> |s[i]| >= |s[j]|
  }

  /** Insert `x` after every element at least as long, so equal lengths keep their order. */
  function InsertByLength(sorted: seq<string>, x: string): (r: seq<string>)
    ensures |r| == |sorted| + 1
    ensures r[0] == if sorted == [] || |sorted[0]| < |x| then x else sorted[0]
  {
    if sorted == [] then [x]
    else if |sorted[0]| >= |x| then [sorted[0]] + InsertByLength(sorted[1..], x)
    else [x] + sorted
  }

  /** Where `InsertByLength` puts `x`: behind every leading element at least as long, before the first shorter one. */
  function InsertPosition(sorted: seq<string>, x: string): (p: nat)
    ensures p <= |sorted|
    ensures forall k :: 0 <= k < p ==> |sorted[k]| >= |x|
    ensures p < |sorted| ==> |sorted[p]| < |x|
  {
    if sorted == [] || |sorted[0]| < |x| then 0 else 1 + InsertPosition(sorted[1..], x)
  }

  /** The list with `x` put in at position `p`. */
  function Splice<T>(s: seq<T>, p: nat, x: T): seq<T>
    requires p <= |s|
  {
    s[..p] + [x] + s[p..]
  }

  /** Putting `x` in at `q` behind the head is putting it in at `q + 1`. */
  lemma SpliceCons<T>(s: seq<T>, q: nat, x: T)
    requires 0 < |s| && q < |s|
    ensures [s[0]] + Splice(s[1..], q, x) == Splice(s, q + 1, x)
  {
    assert s[..q + 1] == [s[0]] + s[1..][..q];
    assert s[q + 1..] == s[1..][q..];
  }

  /** The elements of a list with `x` put in at position `p`. */
  lemma SpliceAt<T>(s: seq<T>, p: nat, x: T)
    requires p <= |s|
    ensures var r := Splice(s, p, x);
      |r| == |s| + 1 && r[p] == x &&
      (forall k :: 0 <= k < p ==> r[k] == s[k]) && (forall k :: p < k < |r| ==> r[k] == s[k - 1])
  {
  }

  /** Putting `x` into a list adds exactly `x` to its multiset. */
  lemma SplicePerm<T>(s: seq<T>, p: nat, x: T)
    requires p <= |s|
    ensures multiset(Splice(s, p, x)) == multiset(s) + multiset{x}
  {
    assert s == s[..p] + s[p..];
  }

  /** In a sorted list, everything from the insertion position on is shorter than `x`. */
  lemma InsertPositionSorted(sorted: seq<string>, x: string)
    requires SortedByLengthDesc(sorted)
    ensures forall k :: InsertPosition(sorted, x) <= k < |sorted| ==> |sorted[k]| < |x|
  {
    var p := InsertPosition(sorted, x);
    forall k | p <= k < |sorted| ensures |sorted[k]| < |x| {
      assert |sorted[k]| <= |sorted[p]|;
    }
  }

  /** Insertion splits the list at the insertion position and puts `x` in between. */
  lemma {:induction false} InsertByLengthAt(sorted: seq<string>, x: string)
    ensures InsertByLength(sorted, x) == Splice(sorted, InsertPosition(sorted, x), x)
  {
    if sorted == [] {
      assert InsertByLength(sorted, x) == [x];
    } else if |sorted[0]| >= |x| {
      InsertByLengthAt(sorted[1..], x);
      SpliceCons(sorted, InsertPosition(sorted[1..], x), x);
    } else {
      assert sorted[..0] == [] && sorted[0..] == sorted;
    }
  }

  /** Insertion adds exactly `x`: the result is a permutation of the list with `x`. */
  lemma InsertByLengthPerm(sorted: seq<string>, x: string)
    ensures multiset(InsertByLength(sorted, x)) == multiset(sorted) + multiset{x}
  {
    InsertByLengthAt(sorted, x);
    SplicePerm(sorted, InsertPosition(sorted, x), x);
  }

  /** Inserting into a sorted list keeps it sorted. */
  lemma InsertKeepsSorted(sorted: seq<string>, x: string)
    requires SortedByLengthDesc(sorted)
    ensures SortedByLengthDesc(InsertByLength(sorted, x))
  {
    var p := InsertPosition(sorted, x);
    InsertByLengthAt(sorted, x);
    SpliceAt(sorted, p, x);
    var r := Splice(sorted, p, x);
    forall i, j | 0 <= i < j < |r| ensures |r[i]| >= |r[j]| {
      if p < i {
        assert |sorted[i - 1]| >= |sorted[j - 1]|;
      } else if i == p {
        assert |sorted[j - 1]| <= |sorted[p]|;
      }
    }
  }

  /** `.sort((a, b) => b.length - a.length)` with the stable sort of ECMAScript 2019. */
  function SortByLengthDesc(s: seq<string>): (r: seq<string>)
    ensures SortedByLengthDesc(r)
    ensures multiset(r) == multiset(s)
  {
    if s == [] then []
    else
      assert s == s[..|s| - 1] + [s[|s| - 1]];
      var init := SortByLengthDesc(s[..|s| - 1]);
      InsertKeepsSorted(init, s[|s| - 1]);
      InsertByLengthPerm(init, s[|s| - 1]);
      InsertByLength(init, s[|s| - 1])
  }

  lemma SortedLength(s: seq<string>)
    ensures |SortByLengthDesc(s)| == |s|
  {
    assert |multiset(SortByLengthDesc(s))| == |multiset(s)|;
  }

  /** `activeHref`: the head of the sorted matching links, or `null`. */
  function ActiveHref(pathname: string, links: seq<string>): Option<string> {
    var sorted := SortByLengthDesc(MatchingLinks(pathname, links));
    if sorted == [] then None else Some(sorted[0])
  }

  /** Sorting a list with one more element at the end is one insertion into the sorted rest. */
  lemma SortSnoc(s: seq<string>, x: string)
    ensures SortByLengthDesc(s + [x]) == InsertByLength(SortByLengthDesc(s), x)
  {
    var t := s + [x];
    assert t[..|t| - 1] == s && t[|t| - 1] == x;
  }

  /**
   * Sorting a list with one more element at the end puts that element behind
   * every element at least as long and before every shorter one.
   */
  lemma SortAppend(s: seq<string>, x: string)
    ensures var sorted := SortByLengthDesc(s);
      exists p :: 0 <= p <= |sorted|
        && (forall k :: 0 <= k < p ==> |sorted[k]| >= |x|)
        && (forall k :: p <= k < |sorted| ==> |sorted[k]| < |x|)
        && SortByLengthDesc(s + [x]) == Splice(sorted, p, x)
  {
    var sorted := SortByLengthDesc(s);
    SortSnoc(s, x);
    InsertByLengthAt(sorted, x);
    InsertPositionSorted(sorted, x);
    var p := InsertPosition(sorted, x);
    assert SortByLengthDesc(s + [x]) == Splice(sorted, p, x);
  }


  /** The elements `f` accepts, in order. */
  function Keep<T>(s: seq<T>, f: T -> bool): seq<T> {
    if s == [] then []
    else Keep(s[..|s| - 1], f) + if f(s[|s| - 1]) then [s[|s| - 1]] else []
  }

  /** Putting `x` before every element that `f` accepts adds it behind them, if it is accepted itself. */
  lemma {:induction false} KeepInsert<T>(s: seq<T>, p: nat, x: T, f: T -> bool)
    requires p <= |s|
    requires f(x) ==> forall k :: p <= k < |s| ==> !f(s[k])
    ensures Keep(Splice(s, p, x), f) == Keep(s, f) + if f(x) then [x] else []
    decreases |s|
  {
    var t := Splice(s, p, x);
    if p == |s| {
      assert t[..|t| - 1] == s;
    } else {
      var init, last := s[..|s| - 1], s[|s| - 1];
      assert init[..p] == s[..p];
      assert t[..|t| - 1] == Splice(init, p, x) && t[|t| - 1] == last;
      KeepInsert(init, p, x, f);
    }
  }

  /** `f` accepts strings of one length only. */
  ghost predicate OneLength(f: string -> bool) {
    forall a: string, b: string :: f(a) && f(b) ==> |a| == |b|
  }

  /** Inserting `x` into a sorted list adds it behind the elements of its own length. */
  lemma KeepInsertByLength(sorted: seq<string>, x: string, f: string -> bool)
    requires SortedByLengthDesc(sorted) && OneLength(f)
    ensures Keep(InsertByLength(sorted, x), f) == Keep(sorted, f) + if f(x) then [x] else []
  {
    var p := InsertPosition(sorted, x);
    InsertByLengthAt(sorted, x);
    InsertPositionSorted(sorted, x);
    KeepInsert(sorted, p, x, f);
  }

  /**
   * The sort is stable: for any choice of links of one length, those links
   * appear in the sorted list in the order they had in the input.
   */
  lemma {:induction false} SortIsStable(s: seq<string>, f: string -> bool)
    requires OneLength(f)
    ensures Keep(SortByLengthDesc(s), f) == Keep(s, f)
  {
    if s != [] {
      var init, x := s[..|s| - 1], s[|s| - 1];
      SortIsStable(init, f);
      KeepInsertByLength(SortByLengthDesc(init), x, f);
    }
  }

  /** Adding a link at the end changes the active link only when it matches and is strictly longer. */
  lemma ActiveHrefStep(pathname: string, links: seq<string>)
    requires links != []
    ensures var init, x := links[..|links| - 1], links[|links| - 1];
      ActiveHref(pathname, links) ==
        if !LinkMatches(pathname, x) then ActiveHref(pathname, init)
        else if ActiveHref(pathname, init).None? || |ActiveHref(pathname, init).value| < |x| then Some(x)
        else ActiveHref(pathname, init)
  {
    var init, x := links[..|links| - 1], links[|links| - 1];
    var mi := MatchingLinks(pathname, init);
    assert MatchingLinks(pathname, links) == mi + if LinkMatches(pathname, x) then [x] else [];
    SortedLength(mi);
    if LinkMatches(pathname, x) {
      SortSnoc(mi, x);
    } else {
      assert MatchingLinks(pathname, links) == mi;
    }
  }

  /** A matching link longer than every earlier match becomes the first longest. */
  lemma FirstLongestAppendNew(pathname: string, init: seq<string>, x: string)
    requires LinkMatches(pathname, x)
    requires forall k :: 0 <= k < |init| && LinkMatches(pathname, init[k]) ==> |init[k]| < |x|
    ensures IsFirstLongest(pathname, init + [x], |init|)
  {
    var links := init + [x];
    assert forall k :: 0 <= k < |init| ==> links[k] == init[k];
  }

  /** A link that does not match, or is no longer, leaves the first longest where it was. */
  lemma FirstLongestAppendOld(pathname: string, init: seq<string>, x: string, i: int)
    requires IsFirstLongest(pathname, init, i)
    requires !LinkMatches(pathname, x) || |x| <= |init[i]|
    ensures IsFirstLongest(pathname, init + [x], i)
  {
    var links := init + [x];
    assert forall k :: 0 <= k < |init| ==> links[k] == init[k];
  }

  /** A navigation item has no active link exactly when no link matches. */
  lemma ActiveHrefNone(pathname: string, links: seq<string>)
    ensures ActiveHref(pathname, links).None? <==> forall k :: 0 <= k < |links| ==> !LinkMatches(pathname, links[k])
  {
    SortedLength(MatchingLinks(pathname, links));
  }

  /** Otherwise the active link is the first longest matching link. */
  lemma {:induction false} ActiveHrefIsFirstLongest(pathname: string, links: seq<string>)
    ensures ActiveHref(pathname, links).Some? ==>
      exists i :: IsFirstLongest(pathname, links, i) && links[i] == ActiveHref(pathname, links).value
  {
    if links != [] {
      var init := links[..|links| - 1];
      var x := links[|links| - 1];
      assert links == init + [x];
      ActiveHrefIsFirstLongest(pathname, init);
      ActiveHrefStep(pathname, links);
      ActiveHrefNone(pathname, init);
      var prev := ActiveHref(pathname, init);
      if prev.None? {
        if LinkMatches(pathname, x) {
          FirstLongestAppendNew(pathname, init, x);
        }
      } else {
        var i :| IsFirstLongest(pathname, init, i) && init[i] == prev.value;
        if LinkMatches(pathname, x) && |prev.value| < |x| {
          FirstLongestAppendNew(pathname, init, x);
        } else {
          FirstLongestAppendOld(pathname, init, x, i);
        }
      }
    }
  }

  /** `href === activeHref`. */
  predicate IsActive(href: string, activeHref: Option<string>) {
    activeHref == Some(href)
  }

  /** Among items with distinct links, at most one is active. */
  lemma AtMostOneActive(pathname: string, links: seq<string>, i: nat, j: nat)
    requires i < |links| && j < |links|
    requires forall a, b :: 0 <= a < b < |links| ==> links[a] != links[b]
    requires IsActive(links[i], ActiveHref(pathname, links)) && IsActive(links[j], ActiveHref(pathname, links))
    ensures i == j
  {
  }

  /** Some navigation item is active exactly when some link matches the pathname. */
  lemma SomeItemActive(pathname: string, links: seq<string>)
    ensures (exists i :: 0 <= i < |links| && IsActive(links[i], ActiveHref(pathname, links))) <==>
      (exists k :: 0 <= k < |links| && LinkMatches(pathname, links[k]))
  {
    ActiveHrefNone(pathname, links);
    ActiveHrefIsFirstLongest(pathname, links);
  }

  /**
   * The sidebar and a navigation item agree on the active link whenever the
   * sidebar selects one; the item alone can select an empty link, when it is
   * the only kind that matches.
   */
  lemma SidebarAgreesWithNavItem(pathname: string, links: seq<string>)
    ensures ActiveIndex(pathname, links) != -1 ==>
      ActiveHref(pathname, links) == Some(links[ActiveIndex(pathname, links)])
    ensures ActiveIndex(pathname, links) == -1 && ActiveHref(pathname, links).Some? ==>
      ActiveHref(pathname, links).value == ""
  {
    ActiveHrefNone(pathname, links);
    ActiveHrefIsFirstLongest(pathname, links);
    ActiveIndexIsFirstLongest(pathname, links);
    if ActiveHref(pathname, links).Some? {
      var i :| IsFirstLongest(pathname, links, i) && links[i] == ActiveHref(pathname, links).value;
      if ActiveIndex(pathname, links) != -1 {
        FirstLongestUnique(pathname, links, i, ActiveIndex(pathname, links));
      }
    }
  }
}
