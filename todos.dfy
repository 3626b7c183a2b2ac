/** The item collection of the todo widget and the pure transformations the
    handlers apply to it: every handler builds a new list with `map` or
    `filter` rather than changing the old one. */
module Todos {

  import Text

  datatype Priority = Low | Medium | High

  datatype Filter = All | Active | Completed

  datatype Item = Item(id: string, text: string, completed: bool, createdAt: int, priority: Priority)

  /** `Array.prototype.map` over items. */
  function Map(s: seq<Item>, f: Item -> Item): (r: seq<Item>)
    ensures |r| == |s|
    ensures forall i :: 0 <= i < |s| ==> r[i] == f(s[i])
  {
    if s == [] then [] else [f(s[0])] + Map(s[1..], f)
  }

  /** `Array.prototype.filter` over items: the items for which `p` holds, in order. */
  function Keep(s: seq<Item>, p: Item -> bool): (r: seq<Item>)
    ensures |r| <= |s|
    ensures forall x :: x in r <==> x in s && p(x)
  {
    if s == [] then [] else (if p(s[0]) then [s[0]] else []) + Keep(s[1..], p)
  }

  /** Keep keeps every copy of a passing item and no copy of any other. */
  lemma {:induction false} KeepMultiset(s: seq<Item>, p: Item -> bool)
    ensures forall x :: multiset(Keep(s, p))[x] == if p(x) then multiset(s)[x] else 0
  {
    if s != [] {
      KeepMultiset(s[1..], p);
      assert s == [s[0]] + s[1..];
    }
  }

  /** Filtering distributes over concatenation, so Keep keeps the relative
      order of the items it keeps. */
  lemma {:induction false} KeepConcat(a: seq<Item>, b: seq<Item>, p: Item -> bool)
    ensures Keep(a + b, p) == Keep(a, p) + Keep(b, p)
  {
    if a == [] {
      assert a + b == b;
    } else {
      assert (a + b)[1..] == a[1..] + b;
      KeepConcat(a[1..], b, p);
    }
  }

  /** Two neighbours of which at most one passes `p` can trade places without changing what Keep returns. */
  lemma KeepSwap(x: Item, y: Item, rest: seq<Item>, p: Item -> bool)
    requires !(p(x) && p(y))
    ensures Keep([y] + ([x] + rest), p) == Keep([x] + ([y] + rest), p)
  {
    KeepConcat([y], [x] + rest, p);
    KeepConcat([x], rest, p);
    KeepConcat([x], [y] + rest, p);
    KeepConcat([y], rest, p);
    KeepOne(x, p);
    KeepOne(y, p);
  }

  lemma KeepOne(y: Item, p: Item -> bool)
    ensures Keep([y], p) == if p(y) then [y] else []
  {
    assert [y][1..] == [];
  }

  /** Keep leaves a list alone exactly when every item passes. */
  lemma {:induction false} KeepAll(s: seq<Item>, p: Item -> bool)
    ensures Keep(s, p) == s <==> forall x :: x in s ==> p(x)
  {
    if s != [] {
      KeepAll(s[1..], p);
      if forall x :: x in s ==> p(x) {
        assert forall x :: x in s[1..] ==> x in s;
      } else {
        var x :| x in s && !p(x);
        assert x !in Keep(s, p);
      }
    }
  }

  lemma KeepIdempotent(s: seq<Item>, p: Item -> bool)
    ensures Keep(Keep(s, p), p) == Keep(s, p)
  {
    KeepAll(Keep(s, p), p);
  }

  /** The items whose `completed` flag is clear. */
  predicate IsActive(t: Item) {
    !t.completed
  }

  predicate IsDone(t: Item) {
    t.completed
  }

  /** `toggleTodo(id)`. */
  function Toggle(s: seq<Item>, id: string): (r: seq<Item>)
    ensures |r| == |s|
    ensures forall i :: 0 <= i < |s| ==>
      r[i].id == s[i].id && r[i].text == s[i].text && r[i].createdAt == s[i].createdAt
      && r[i].priority == s[i].priority
      && r[i].completed == (if s[i].id == id then !s[i].completed else s[i].completed)
  {
    Map(s, (t: Item) => if t.id == id then t.(completed := !t.completed) else t)
  }

  lemma ToggleTwice(s: seq<Item>, id: string)
    ensures Toggle(Toggle(s, id), id) == s
  {
    var r := Toggle(Toggle(s, id), id);
    assert forall i :: 0 <= i < |s| ==> r[i] == s[i];
  }

  /** `deleteTodo(id)`: every item with that id is dropped, the rest stay in order. */
  function Delete(s: seq<Item>, id: string): (r: seq<Item>)
    ensures forall x :: multiset(r)[x] == if x.id == id then 0 else multiset(s)[x]
    ensures (forall x :: x in s ==> x.id != id) ==> r == s
  {
    KeepAll(s, (t: Item) => t.id != id);
    KeepMultiset(s, (t: Item) => t.id != id);
    Keep(s, (t: Item) => t.id != id)
  }

  lemma DeleteKeepsOrder(a: seq<Item>, b: seq<Item>, id: string)
    ensures Delete(a + b, id) == Delete(a, id) + Delete(b, id)
  {
    KeepConcat(a, b, (t: Item) => t.id != id);
  }

  /** The list map of `saveEdit`: items with the edited id get the new text. */
  function Rename(s: seq<Item>, id: string, text: string): (r: seq<Item>)
    ensures |r| == |s|
    ensures forall i :: 0 <= i < |s| ==>
      r[i] == if s[i].id == id then s[i].(text := text) else s[i]
  {
    Map(s, (t: Item) => if t.id == id then t.(text := text) else t)
  }

  /** `todos.some((t) => !t.completed)`. */
  function AnyActive(s: seq<Item>): (r: bool)
    ensures r <==> exists i :: 0 <= i < |s| && !s[i].completed
  {
    if s == [] then false
    else if !s[0].completed then true
    else
      var r := AnyActive(s[1..]);
      assert r ==> exists i :: 0 <= i < |s| && !s[i].completed by {
        if r { var i :| 0 <= i < |s| - 1 && !s[1..][i].completed; assert !s[i + 1].completed; }
      }
      r
  }

  /** `toggleAll`: complete everything when something is still open, otherwise reopen everything. */
  function ToggleAll(s: seq<Item>): (r: seq<Item>)
    ensures |r| == |s|
    ensures forall i :: 0 <= i < |s| ==>
      r[i].id == s[i].id && r[i].text == s[i].text && r[i].createdAt == s[i].createdAt
      && r[i].priority == s[i].priority
    ensures (exists i :: 0 <= i < |s| && !s[i].completed) ==> forall i :: 0 <= i < |r| ==> r[i].completed
    ensures (forall i :: 0 <= i < |s| ==> s[i].completed) ==> forall i :: 0 <= i < |r| ==> !r[i].completed
  {
    var all := AnyActive(s);
    Map(s, (t: Item) => t.(completed := all))
  }

  /** Every item has the same `completed` flag. */
  predicate Uniform(s: seq<Item>) {
    forall i, j :: 0 <= i < |s| && 0 <= j < |s| ==> s[i].completed == s[j].completed
  }

  /** Toggling all twice gives the list back exactly when all items agreed on
      their flag; from a mixed list the second call reopens everything. */
  lemma ToggleAllTwice(s: seq<Item>)
    ensures ToggleAll(ToggleAll(s)) == s <==> Uniform(s)
  {
    var once := ToggleAll(s);
    var twice := ToggleAll(once);
    assert Uniform(twice);
    if Uniform(s) && s != [] {
      if s[0].completed {
        assert !once[0].completed;
        assert forall i :: 0 <= i < |s| ==> twice[i] == s[i];
      } else {
        assert forall i :: 0 <= i < |s| ==> !s[i].completed;
        assert forall i :: 0 <= i < |s| ==> twice[i] == s[i];
      }
    }
  }

  /** `clearCompleted`: the open items, in order. */
  function ClearCompleted(s: seq<Item>): (r: seq<Item>)
    ensures forall x :: multiset(r)[x] == if x.completed then 0 else multiset(s)[x]
  {
    KeepMultiset(s, IsActive);
    Keep(s, IsActive)
  }

  /** Clearing works item by item, so the open items keep their order. */
  lemma ClearCompletedKeepsOrder(a: seq<Item>, b: seq<Item>)
    ensures ClearCompleted(a + b) == ClearCompleted(a) + ClearCompleted(b)
  {
    KeepConcat(a, b, IsActive);
  }

  /** `remaining`: how many items are still open. */
  function Remaining(s: seq<Item>): (r: nat)
    ensures r <= |s|
  {
    |Keep(s, IsActive)|
  }

  /** `completedCount`, computed as the source does, as the total minus the
      open ones, is the number of completed items. */
  function CompletedCount(s: seq<Item>): (r: nat)
    ensures r == |Keep(s, IsDone)|
  {
    CountsPartition(s);
    |s| - Remaining(s)
  }

  /** The open and the completed items split the list. */
  lemma {:induction false} CountsPartition(s: seq<Item>)
    ensures Remaining(s) + |Keep(s, IsDone)| == |s|
  {
    if s != [] {
      CountsPartition(s[1..]);
    }
  }

  lemma ClearCompletedCounts(s: seq<Item>)
    ensures CompletedCount(ClearCompleted(s)) == 0
    ensures Remaining(ClearCompleted(s)) == Remaining(s)
  {
    KeepIdempotent(s, IsActive);
  }

  /** No two items share an id. */
  predicate UniqueIds(s: seq<Item>) {
    forall i, j :: 0 <= i < j < |s| ==> s[i].id != s[j].id
  }

  /** Every stored text is non-empty and has no white space at its ends. */
  predicate CleanTexts(s: seq<Item>) {
    forall t :: t in s ==> t.text != [] && Text.Tight(t.text)
  }

  /** The invariants the handlers keep: ids are unique and texts are trimmed and non-empty. */
  predicate WellFormed(s: seq<Item>) {
    UniqueIds(s) && CleanTexts(s)
  }

  lemma {:induction false} KeepUniqueIds(s: seq<Item>, p: Item -> bool)
    requires UniqueIds(s)
    ensures UniqueIds(Keep(s, p))
  {
    if s != [] {
      var tail := s[1..];
      assert UniqueIds(tail) by {
        forall i, j | 0 <= i < j < |tail| ensures tail[i].id != tail[j].id {
          assert tail[i] == s[i + 1] && tail[j] == s[j + 1];
        }
      }
      KeepUniqueIds(tail, p);
      var rest := Keep(tail, p);
      if p(s[0]) {
        var r := [s[0]] + rest;
        assert forall u :: u in rest ==> u.id != s[0].id by {
          forall u | u in rest ensures u.id != s[0].id {
            var k :| 0 <= k < |tail| && tail[k] == u;
            assert s[k + 1] == u;
          }
        }
        forall i, j | 0 <= i < j < |r| ensures r[i].id != r[j].id {
          assert r[j] == rest[j - 1];
          if i > 0 { assert r[i] == rest[i - 1]; }
        }
      }
    }
  }

  lemma KeepWellFormed(s: seq<Item>, p: Item -> bool)
    requires WellFormed(s)
    ensures WellFormed(Keep(s, p))
  {
    KeepUniqueIds(s, p);
  }

  /** Adding an item with a fresh id and a trimmed, non-empty text keeps the invariants. */
  lemma PrependWellFormed(t: Item, s: seq<Item>)
    requires WellFormed(s)
    requires forall u :: u in s ==> u.id != t.id
    requires t.text != [] && Text.Tight(t.text)
    ensures WellFormed([t] + s)
  {
    var r := [t] + s;
    forall i, j | 0 <= i < j < |r| ensures r[i].id != r[j].id {
      assert r[j] == s[j - 1];
      if i > 0 { assert r[i] == s[i - 1]; }
    }
  }

  lemma ToggleWellFormed(s: seq<Item>, id: string)
    requires WellFormed(s)
    ensures WellFormed(Toggle(s, id))
  {
    var r := Toggle(s, id);
    forall t | t in r ensures t.text != [] && Text.Tight(t.text) {
      var i :| 0 <= i < |r| && r[i] == t;
      assert s[i] in s;
    }
  }

  lemma ToggleAllWellFormed(s: seq<Item>)
    requires WellFormed(s)
    ensures WellFormed(ToggleAll(s))
  {
    var r := ToggleAll(s);
    forall t | t in r ensures t.text != [] && Text.Tight(t.text) {
      var i :| 0 <= i < |r| && r[i] == t;
      assert s[i] in s;
    }
  }

  lemma RenameWellFormed(s: seq<Item>, id: string, text: string)
    requires WellFormed(s)
    requires text != [] && Text.Tight(text)
    ensures WellFormed(Rename(s, id, text))
  {
    var r := Rename(s, id, text);
    forall t | t in r ensures t.text != [] && Text.Tight(t.text) {
      var i :| 0 <= i < |r| && r[i] == t;
      assert s[i] in s;
    }
  }
}
