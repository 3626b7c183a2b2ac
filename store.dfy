/** Persistence of the item list in the browser's key-value storage. The
    storage is a map from keys to strings; `JSON.parse` and `JSON.stringify`
    are foreign library calls and are passed in as functions. */
module Store {

  import opened Todos

  /** The one key the list is stored under. */
  const StorageKey: string := "modern-todolist-v1"

  /** What `JSON.parse` makes of the stored text: it throws, or it yields a
      value that is not an array, or it yields an array (taken to hold items). */
  datatype Parsed = Malformed | NotArray | Array(items: seq<Item>)

  /** The initial list: a missing or empty entry, text that does not parse and
      a parsed value that is not an array all give the empty list. */
  function Load(storage: map<string, string>, parse: string -> Parsed): (r: seq<Item>)
    ensures r != [] ==> StorageKey in storage && storage[StorageKey] != []
                        && parse(storage[StorageKey]) == Array(r)
    ensures StorageKey in storage && storage[StorageKey] != [] && parse(storage[StorageKey]).Array?
            ==> r == parse(storage[StorageKey]).items
  {
    if StorageKey !in storage || storage[StorageKey] == [] then
      []
    else
      match parse(storage[StorageKey])
      case Array(items) => items
      case _ => []
  }

  /** The write the widget performs whenever the list changes: the whole list
      replaces whatever was stored under the key; no other key is touched. */
  function Save(storage: map<string, string>, todos: seq<Item>, stringify: seq<Item> -> string): (r: map<string, string>)
    ensures r.Keys == storage.Keys + {StorageKey}
    ensures r[StorageKey] == stringify(todos)
    ensures forall k :: k in storage && k != StorageKey ==> r[k] == storage[k]
  {
    storage[StorageKey := stringify(todos)]
  }

  /** Saving and loading again gives the same list back, provided the
      serialiser produces non-empty text that the parser reads back as the
      same array. */
  lemma LoadAfterSave(storage: map<string, string>, todos: seq<Item>,
                      parse: string -> Parsed, stringify: seq<Item> -> string)
    requires stringify(todos) != [] && parse(stringify(todos)) == Array(todos)
    ensures Load(Save(storage, todos, stringify), parse) == todos
  {
  }
}
