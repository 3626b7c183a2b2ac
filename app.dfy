/** The widget's state and its event handlers. Each `useState` slot is a
    field; each handler is a method that sets the slots it sets and no others.
    The new id and the clock reading that `addTodo` draws are parameters. */
module App {

  import opened Text
  import opened Todos
  import opened View
  import opened Store

  datatype Option<T> = None | Some(value: T)

  /** JavaScript truthiness of `editingId`: both `null` and `''` are falsy. */
  function IsSet(editing: Option<string>): (r: bool)
    ensures r <==> editing != None && editing != Some([])
  {
    editing.Some? && editing.value != []
  }

  class TodoApp {
    var todos: seq<Item>
    var draft: string
    var priority: Priority
    var search: string
    var filter: Filter
    var editingId: Option<string>
    var editingText: string

    /** The first render: the list comes from storage, every other slot has its initial value. */
    constructor (storage: map<string, string>, parse: string -> Parsed)
      ensures todos == Load(storage, parse)
      ensures draft == [] && priority == Medium && search == [] && filter == All
      ensures editingId == None && editingText == []
    {
      todos := Load(storage, parse);
      draft, priority := [], Medium;
      search, filter := [], All;
      editingId, editingText := None, [];
    }

    method SetDraft(text: string)
      modifies this`draft
      ensures draft == text
    {
      draft := text;
    }

    method SetPriority(p: Priority)
      modifies this`priority
      ensures priority == p
    {
      priority := p;
    }

    method SetSearch(query: string)
      modifies this`search
      ensures search == query
    {
      search := query;
    }

    method SetFilter(f: Filter)
      modifies this`filter
      ensures filter == f
    {
      filter := f;
    }

    method SetEditingText(text: string)
      modifies this`editingText
      ensures editingText == text
    {
      editingText := text;
    }

    /** `visibleTodos` of the current slots: sorted, and holding exactly the
        items of the list that pass the selected tab and the search text. */
    function VisibleTodos(): (r: seq<Item>)
      reads this
      ensures Sorted(r)
      ensures forall x :: x in r <==> x in todos && InTab(filter, x) && Matches(search, x)
    {
      var v := Visible(todos, filter, search);
      assert forall x :: x in v <==> multiset(v)[x] > 0;
      assert forall x :: x in todos <==> multiset(todos)[x] > 0;
      v
    }

    /** `addTodo`: a draft that trims to nothing is ignored; otherwise a new open
        item with the trimmed text and the chosen priority goes to the front,
        and the draft and the priority are reset. */
    method AddTodo(id: string, now: int)
      requires forall t :: t in todos ==> t.id != id
      modifies this`todos, this`draft, this`priority
      ensures AllWhite(old(draft)) ==>
        todos == old(todos) && draft == old(draft) && priority == old(priority)
      ensures !AllWhite(old(draft)) ==>
        todos == [Item(id, Trim(old(draft)), false, now, old(priority))] + old(todos)
        && draft == [] && priority == Medium
      ensures WellFormed(old(todos)) ==> WellFormed(todos)
    {
      var text := Trim(draft);
      if text == [] {
        return;
      }
      var todo := Item(id, text, false, now, priority);
      if WellFormed(todos) { PrependWellFormed(todo, todos); }
      todos := [todo] + todos;
      draft := [];
      priority := Medium;
    }

    /** `toggleTodo`. */
    method ToggleTodo(id: string)
      modifies this`todos
      ensures todos == Toggle(old(todos), id)
      ensures WellFormed(old(todos)) ==> WellFormed(todos)
    {
      if WellFormed(todos) { ToggleWellFormed(todos, id); }
      todos := Toggle(todos, id);
    }

    /** `deleteTodo`. */
    method DeleteTodo(id: string)
      modifies this`todos
      ensures todos == Delete(old(todos), id)
      ensures WellFormed(old(todos)) ==> WellFormed(todos)
    {
      if WellFormed(todos) { KeepWellFormed(todos, (t: Item) => t.id != id); }
      todos := Delete(todos, id);
    }

    /** `startEdit`: the edit buffer now holds this item's id and text; an
        edit already open is given up. */
    method StartEdit(todo: Item)
      modifies this`editingId, this`editingText
      ensures editingId == Some(todo.id) && editingText == todo.text
    {
      editingId := Some(todo.id);
      editingText := todo.text;
    }

    /** `saveEdit`: with no edit open, or with text that trims to nothing, it
        does nothing at all and the edit stays open; otherwise the items with
        the edited id get the trimmed text and the edit is closed. */
    method SaveEdit()
      modifies this`todos, this`editingId, this`editingText
      ensures !IsSet(old(editingId)) || AllWhite(old(editingText)) ==>
        todos == old(todos) && editingId == old(editingId) && editingText == old(editingText)
      ensures IsSet(old(editingId)) && !AllWhite(old(editingText)) ==>
        todos == Rename(old(todos), old(editingId).value, Trim(old(editingText)))
        && editingId == None && editingText == []
      ensures WellFormed(old(todos)) ==> WellFormed(todos)
    {
      if !IsSet(editingId) {
        return;
      }
      var text := Trim(editingText);
      if text == [] {
        return;
      }
      if WellFormed(todos) { RenameWellFormed(todos, editingId.value, text); }
      todos := Rename(todos, editingId.value, text);
      editingId := None;
      editingText := [];
    }

    /** The Escape key in the edit box: the edit is dropped, no item changes. */
    method CancelEdit()
      modifies this`editingId, this`editingText
      ensures editingId == None && editingText == []
    {
      editingId := None;
      editingText := [];
    }

    /** `toggleAll`. */
    method ToggleAll()
      modifies this`todos
      ensures todos == Todos.ToggleAll(old(todos))
      ensures WellFormed(old(todos)) ==> WellFormed(todos)
    {
      if WellFormed(todos) { ToggleAllWellFormed(todos); }
      todos := Todos.ToggleAll(todos);
    }

    /** `clearCompleted`. */
    method ClearCompleted()
      modifies this`todos
      ensures todos == Todos.ClearCompleted(old(todos))
      ensures CompletedCount(todos) == 0 && Remaining(todos) == Remaining(old(todos))
      ensures WellFormed(old(todos)) ==> WellFormed(todos)
    {
      if WellFormed(todos) { KeepWellFormed(todos, IsActive); }
      ClearCompletedCounts(todos);
      todos := Todos.ClearCompleted(todos);
    }
  }
}
