/** The derived list the widget displays: the items of the selected tab that
    match the search box, open items first and newest first within each group. */
module View {

  import opened Text
  import opened Todos

  /** The comparator handed to `sort`: `Number(a.completed) - Number(b.completed)`,
      and when that is 0 (falsy), `b.createdAt - a.createdAt`. */
  function Compare(a: Item, b: Item): (r: int)
    ensures a.completed != b.completed ==> (r < 0 <==> !a.completed) && r != 0
    ensures a.completed == b.completed ==>
      (r < 0 <==> a.createdAt > b.createdAt) && (r == 0 <==> a.createdAt == b.createdAt)
  {
    var d := (if a.completed then 1 else 0) - (if b.completed then 1 else 0);
    if d != 0 then d else b.createdAt - a.createdAt
  }

  /** The comparator is consistent: swapping its arguments flips its sign, and
      "sorts no later than" is transitive. */
  lemma CompareConsistent(a: Item, b: Item, c: Item)
    ensures Compare(a, b) == -Compare(b, a)
    ensures Compare(a, b) <= 0 && Compare(b, c) <= 0 ==> Compare(a, c) <= 0
  {
  }

  /** Each item sorts no later than every item after it. */
  predicate Sorted(s: seq<Item>) {
    forall i, j :: 0 <= i < j < |s| ==> Compare(s[i], s[j]) <= 0
  }

  /** An item that sorts no later than every item of a sorted list can lead it. */
  lemma SortedCons(x: Item, t: seq<Item>)
    requires Sorted(t)
    requires forall j :: 0 <= j < |t| ==> Compare(x, t[j]) <= 0
    ensures Sorted([x] + t)
  {
    var r := [x] + t;
    forall i, j | 0 <= i < j < |r| ensures Compare(r[i], r[j]) <= 0 {
      if i > 0 { assert r[i] == t[i - 1] && r[j] == t[j - 1]; }
      else { assert r[j] == t[j - 1]; }
    }
  }

  /** Puts `x` in front of the first item it does not sort after; on a tie
      `x` goes first, so an item that came earlier stays earlier. */
  function Insert(x: Item, t: seq<Item>): (r: seq<Item>)
    ensures multiset(r) == multiset(t) + multiset{x}
  {
    if t == [] then
      [x]
    else if Compare(x, t[0]) <= 0 then
      [x] + t
    else
      assert t == [t[0]] + t[1..];
      [t[0]] + Insert(x, t[1..])
  }

  /** Every item of `t` sorts no earlier than `y`. */
  predicate Bounds(y: Item, t: seq<Item>) {
    forall j :: 0 <= j < |t| ==> Compare(y, t[j]) <= 0
  }

  /** A lower bound of `x` and of `t` is one of `Insert(x, t)`. */
  lemma InsertBound(y: Item, x: Item, t: seq<Item>)
    requires Bounds(y, t) && Compare(y, x) <= 0
    ensures Bounds(y, Insert(x, t))
  {
    var r := Insert(x, t);
    forall j | 0 <= j < |r| ensures Compare(y, r[j]) <= 0 {
      assert r[j] in multiset(r);
      if r[j] != x {
        assert r[j] in multiset(t);
        var k :| 0 <= k < |t| && t[k] == r[j];
      }
    }
  }

  lemma {:induction false} InsertSorted(x: Item, t: seq<Item>)
    requires Sorted(t)
    ensures Sorted(Insert(x, t))
  {
    if t == [] {
    } else if Compare(x, t[0]) <= 0 {
      forall j | 0 <= j < |t| ensures Compare(x, t[j]) <= 0 {
        CompareConsistent(x, t[0], t[j]);
      }
      SortedCons(x, t);
    } else {
      var tail := t[1..];
      SortedTail(t);
      InsertSorted(x, tail);
      CompareConsistent(x, t[0], x);
      assert Bounds(t[0], tail) by {
        forall j | 0 <= j < |tail| ensures Compare(t[0], tail[j]) <= 0 { assert tail[j] == t[j + 1]; }
      }
      InsertBound(t[0], x, tail);
      SortedCons(t[0], Insert(x, tail));
    }
  }

  /** `sort(compare)` as a stable insertion sort. */
  function Sort(s: seq<Item>): (r: seq<Item>)
    ensures Sorted(r)
    ensures multiset(r) == multiset(s)
  {
    if s == [] then
      []
    else
      assert s == [s[0]] + s[1..];
      var rest := Sort(s[1..]);
      InsertSorted(s[0], rest);
      Insert(s[0], rest)
  }

  /** `p` picks out items that the comparator cannot tell apart. */
  ghost predicate TieClass(p: Item -> bool) {
    forall a, b :: p(a) && p(b) ==> Compare(a, b) == 0
  }

  lemma SortedTail(t: seq<Item>)
    requires Sorted(t) && t != []
    ensures Sorted(t[1..])
  {
    var tail := t[1..];
    forall i, j | 0 <= i < j < |tail| ensures Compare(tail[i], tail[j]) <= 0 {
      assert tail[i] == t[i + 1] && tail[j] == t[j + 1];
    }
  }

  lemma {:induction false} InsertStable(x: Item, t: seq<Item>, p: Item -> bool)
    requires TieClass(p)
    ensures Keep(Insert(x, t), p) == Keep([x] + t, p)
  {
    if t != [] && Compare(x, t[0]) > 0 {
      var rest := t[1..];
      assert t == [t[0]] + rest;
      assert !(p(x) && p(t[0]));
      calc {
        Keep(Insert(x, t), p);
        Keep([t[0]] + Insert(x, rest), p);
        { KeepConcat([t[0]], Insert(x, rest), p); InsertStable(x, rest, p); }
        Keep([t[0]], p) + Keep([x] + rest, p);
        { KeepConcat([t[0]], [x] + rest, p); }
        Keep([t[0]] + ([x] + rest), p);
        { KeepSwap(x, t[0], rest, p); }
        Keep([x] + ([t[0]] + rest), p);
        Keep([x] + t, p);
      }
    }
  }

  /** JavaScript's sort is stable: items the comparator ties keep their input order. */
  lemma {:induction false} SortStable(s: seq<Item>, p: Item -> bool)
    requires TieClass(p)
    ensures Keep(Sort(s), p) == Keep(s, p)
  {
    if s != [] {
      assert s == [s[0]] + s[1..];
      InsertStable(s[0], Sort(s[1..]), p);
      SortStable(s[1..], p);
      KeepConcat([s[0]], Sort(s[1..]), p);
      KeepConcat([s[0]], s[1..], p);
    }
  }

  /** The tab filter: `all` passes everything, the other two tabs pass
      exactly the items whose state they name. */
  function InTab(f: Filter, t: Item): (r: bool)
    ensures f == All ==> r
    ensures f != All ==> (r <==> (t.completed <==> f == Completed))
  {
    match f
    case Active => !t.completed
    case Completed => t.completed
    case All => true
  }

  /** The search filter: the lower-cased text includes the trimmed, lower-cased query. */
  function Matches(query: string, t: Item): (r: bool)
    ensures r ==> exists i :: OccursAt(Lower(t.text), Lower(Trim(query)), i)
    ensures (exists i :: OccursAt(Lower(t.text), Lower(Trim(query)), i)) ==> r
  {
    Contains(Lower(t.text), Lower(Trim(query)))
  }

  /** `visibleTodos`. */
  function Visible(s: seq<Item>, f: Filter, query: string): (r: seq<Item>)
    ensures Sorted(r)
    ensures forall x :: multiset(r)[x] == if InTab(f, x) && Matches(query, x) then multiset(s)[x] else 0
  {
    var tab := Keep(s, (t: Item) => InTab(f, t));
    KeepMultiset(s, (t: Item) => InTab(f, t));
    KeepMultiset(tab, (t: Item) => Matches(query, t));
    Sort(Keep(tab, (t: Item) => Matches(query, t)))
  }

  /** Each tab shows exactly the items it names (among those the search keeps). */
  lemma VisibleTabs(s: seq<Item>, f: Filter, query: string)
    ensures f == Active ==> forall x :: x in Visible(s, f, query) ==> !x.completed
    ensures f == Completed ==> forall x :: x in Visible(s, f, query) ==> x.completed
    ensures forall x :: x in s && InTab(f, x) && Matches(query, x) ==> x in Visible(s, f, query)
  {
    var r := Visible(s, f, query);
    forall x | x in r ensures InTab(f, x) {
      assert multiset(r)[x] > 0;
    }
    forall x | x in s && InTab(f, x) && Matches(query, x) ensures x in r {
      assert multiset(s)[x] > 0;
    }
  }

  /** A query that trims to nothing hides nothing: the view is then a
      permutation of the tab's items. */
  lemma BlankQueryShowsTab(s: seq<Item>, f: Filter, query: string)
    requires AllWhite(query)
    ensures multiset(Visible(s, f, query)) == multiset(Keep(s, (t: Item) => InTab(f, t)))
  {
    assert Lower(Trim(query)) == [];
    forall x: Item ensures Matches(query, x) {
      EmptyIsContained(Lower(x.text));
    }
    var v := Visible(s, f, query);
    var k := Keep(s, (t: Item) => InTab(f, t));
    KeepMultiset(s, (t: Item) => InTab(f, t));
    forall x ensures multiset(v)[x] == multiset(k)[x] {
    }
  }

  /** The two orderings the display promises: open items before completed
      ones, and newest first within each group. */
  lemma VisibleOrder(s: seq<Item>, f: Filter, query: string)
    ensures var r := Visible(s, f, query);
      forall i, j :: 0 <= i < j < |r| ==>
        (r[i].completed ==> r[j].completed)
        && (r[i].completed == r[j].completed ==> r[i].createdAt >= r[j].createdAt)
  {
    var r := Visible(s, f, query);
    forall i, j | 0 <= i < j < |r|
      ensures r[i].completed ==> r[j].completed
      ensures r[i].completed == r[j].completed ==> r[i].createdAt >= r[j].createdAt
    {
      assert Compare(r[i], r[j]) <= 0;
    }
  }
}
