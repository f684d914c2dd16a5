/**
 * The to-do list (`js/todo.js`) over a sequence of to-do records.  The id and
 * creation time of a new item come from the clock, so they are parameters.
 */
module Todo {
  import Strings

  datatype Item = Item(id: string, text: string, completed: bool, createdAt: string)

  /**
   * `addTodo`: blank input (after trimming) changes nothing; anything else
   * puts a new, uncompleted item with the trimmed text at the front.
   */
  function AddTodo(todos: seq<Item>, input: string, id: string, createdAt: string): (r: seq<Item>)
    ensures Strings.AllSpace(input) ==> r == todos
    ensures !Strings.AllSpace(input) ==> r == [Item(id, Strings.Trim(input), false, createdAt)] + todos
  {
    Strings.TrimEmptyIffAllSpace(input);
    var text := Strings.Trim(input);
    if text == [] then todos else [Item(id, text, false, createdAt)] + todos
  }

  /** The position of the first item with the id, if any (`todos.find(t => t.id === id)`). */
  function FirstWithId(todos: seq<Item>, id: string): (r: int)
    ensures -1 <= r < |todos|
    ensures r >= 0 ==> todos[r].id == id && forall k :: 0 <= k < r ==> todos[k].id != id
    ensures r < 0 ==> forall k :: 0 <= k < |todos| ==> todos[k].id != id
  {
    if todos == [] then -1
    else if todos[0].id == id then 0
    else
      var r := FirstWithId(todos[1..], id);
      if r < 0 then -1 else r + 1
  }

  /** `toggleTodo`: the first item with the id flips its `completed` flag; an unknown id changes nothing. */
  function ToggleTodo(todos: seq<Item>, id: string): (r: seq<Item>)
    ensures |r| == |todos|
    ensures forall k :: 0 <= k < |todos| && k != FirstWithId(todos, id) ==> r[k] == todos[k]
    ensures FirstWithId(todos, id) >= 0 ==>
              var k := FirstWithId(todos, id);
              r[k] == todos[k].(completed := !todos[k].completed)
  {
    var k := FirstWithId(todos, id);
    if k < 0 then todos else todos[k := todos[k].(completed := !todos[k].completed)]
  }

  /** Toggling the same id twice restores the list. */
  lemma ToggleTwice(todos: seq<Item>, id: string)
    ensures ToggleTodo(ToggleTodo(todos, id), id) == todos
  {
    var once := ToggleTodo(todos, id);
    var k := FirstWithId(todos, id);
    if k >= 0 {
      FirstWithIdAfterToggle(todos, id);
    }
  }

  /** Toggling changes no id, so the item toggled stays the first with its id. */
  lemma FirstWithIdAfterToggle(todos: seq<Item>, id: string)
    requires FirstWithId(todos, id) >= 0
    ensures FirstWithId(ToggleTodo(todos, id), id) == FirstWithId(todos, id)
  {
    var once := ToggleTodo(todos, id);
    var k := FirstWithId(todos, id);
    assert once[k].id == id;
  }

  /** `deleteTodo`: every item with the id goes, the rest stay in order. */
  function DeleteTodo(todos: seq<Item>, id: string): (r: seq<Item>)
    ensures |r| <= |todos|
    ensures forall k :: 0 <= k < |r| ==> r[k].id != id
  {
    if todos == [] then []
    else (if todos[0].id != id then [todos[0]] else []) + DeleteTodo(todos[1..], id)
  }

  /** An item survives deletion exactly when its id is a different one. */
  lemma {:induction false} DeleteTodoMember(todos: seq<Item>, id: string, x: Item)
    ensures x in DeleteTodo(todos, id) <==> x in todos && x.id != id
  {
    if todos != [] {
      DeleteTodoMember(todos[1..], id, x);
      assert todos == [todos[0]] + todos[1..];
    }
  }

  /** Deletion keeps order: deleting from a concatenation deletes from each part. */
  lemma {:induction false} DeleteTodoAppend(a: seq<Item>, b: seq<Item>, id: string)
    ensures DeleteTodo(a + b, id) == DeleteTodo(a, id) + DeleteTodo(b, id)
  {
    if a != [] {
      assert (a + b)[0] == a[0] && (a + b)[1..] == a[1..] + b;
      DeleteTodoAppend(a[1..], b, id);
    } else {
      assert a + b == b;
    }
  }

  /** Deleting an id no item has changes nothing. */
  lemma {:induction false} DeleteTodoAbsent(todos: seq<Item>, id: string)
    requires forall k :: 0 <= k < |todos| ==> todos[k].id != id
    ensures DeleteTodo(todos, id) == todos
  {
    if todos != [] {
      DeleteTodoAbsent(todos[1..], id);
      assert todos == [todos[0]] + todos[1..];
    }
  }

  /** Adding an item under a fresh id and deleting that id gives back the list. */
  lemma AddThenDelete(todos: seq<Item>, input: string, id: string, createdAt: string)
    requires forall k :: 0 <= k < |todos| ==> todos[k].id != id
    ensures DeleteTodo(AddTodo(todos, input, id, createdAt), id) == todos
  {
    DeleteTodoAbsent(todos, id);
    var added := AddTodo(todos, input, id, createdAt);
    if added != todos {
      assert added[1..] == todos;
    }
  }
}
