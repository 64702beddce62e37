/** The `Todos` component: its `useState` slots as fields of a class, and each
    event handler as a method that updates them. */
module TodosComponent {
  import opened Text
  import opened TodoList

  /** `number | null`. */
  datatype Option<T> = None | Some(index: T)

  class Todos {
    /** The status filter chosen in the select (`all`, `complete`, `incomplete`). */
    var value: string
    var todos: seq<Todo>
    /** The text typed into the new-note dialog. */
    var newTodo: string
    /** The row being edited, if any. */
    var editIndex: Option<int>
    /** The text typed into the edit field. */
    var editedTodo: string
    var searchQuery: string
    var isDialogOpen: bool

    /** The first render: `stored` is what was read back from the browser's storage. */
    constructor (stored: seq<Todo>)
      ensures value == "all" && todos == stored && newTodo == "" && editIndex == None
      ensures editedTodo == "" && searchQuery == "" && !isDialogOpen
    {
      value := "all";
      todos := stored;
      newTodo := "";
      editIndex := None;
      editedTodo := "";
      searchQuery := "";
      isDialogOpen := false;
    }

    /** `filteredTodos`, the list the component renders. */
    function Shown(): seq<Todo>
      reads this
    {
      FilteredTodos(todos, value, searchQuery)
    }

    /** The filter select's `handleChange`. */
    method HandleChange(v: string)
      modifies this`value
      ensures value == v
    {
      value := v;
    }

    /** The search field's `onChange`. */
    method SetSearchQuery(q: string)
      modifies this`searchQuery
      ensures searchQuery == q
    {
      searchQuery := q;
    }

    /** The new-note field's `onChange`. */
    method SetNewTodo(text: string)
      modifies this`newTodo
      ensures newTodo == text
    {
      newTodo := text;
    }

    /** The edit field's `onChange`. */
    method SetEditedTodo(text: string)
      modifies this`editedTodo
      ensures editedTodo == text
    {
      editedTodo := text;
    }

    /** The add button, and the dialog's close and cancel. */
    method SetDialogOpen(open: bool)
      modifies this`isDialogOpen
      ensures isDialogOpen == open
    {
      isDialogOpen := open;
    }

    /** `handleAddTodo`: a note that is not whitespace only is appended, trimmed and
        not completed, after every earlier item; the dialog's text is cleared and
        the dialog closes. A whitespace-only note changes nothing. */
    method HandleAddTodo()
      modifies this`todos, this`newTodo, this`isDialogOpen
      ensures !WhitespaceBetween(old(newTodo), 0, |old(newTodo)|) ==>
        && todos == old(todos) + [Todo(Trim(old(newTodo)), false)]
        && newTodo == "" && !isDialogOpen
      ensures WhitespaceBetween(old(newTodo), 0, |old(newTodo)|) ==>
        todos == old(todos) && newTodo == old(newTodo) && isDialogOpen == old(isDialogOpen)
      ensures WellFormed(old(todos)) ==> WellFormed(todos)
    {
      var trimmed := Trim(newTodo);
      if trimmed != "" {
        if WellFormed(todos) {
          AppendKeepsWellFormed(todos, newTodo);
        }
        todos := todos + [Todo(trimmed, false)];
        newTodo := "";
        isDialogOpen := false;
      }
    }

    /** `handleDeleteTodo`: an index inside the list removes that item and keeps the
        others in order; any other index changes nothing. The index is a position
        in the backing list. */
    method HandleDeleteTodo(index: int)
      modifies this`todos
      ensures 0 <= index < |old(todos)| ==> todos == old(todos)[..index] + old(todos)[index + 1..]
      ensures !(0 <= index < |old(todos)|) ==> todos == old(todos)
      ensures WellFormed(old(todos)) ==> WellFormed(todos)
    {
      RemoveAtSlices(todos, index);
      if WellFormed(todos) {
        RemoveAtKeepsWellFormed(todos, index);
      }
      todos := RemoveAt(todos, index);
    }

    /** `handleEditTodo`: the row becomes the one being edited, and the edit field
        starts from its text. The list is not touched. */
    method HandleEditTodo(index: int)
      requires 0 <= index < |todos|
      modifies this`editIndex, this`editedTodo
      ensures editIndex == Some(index) && editedTodo == todos[index].text
    {
      editIndex := Some(index);
      editedTodo := todos[index].text;
    }

    /** `handleSaveEdit`: while a row is being edited and the edit text is not
        whitespace only, the row's text becomes the trimmed edit text, its flag and
        every other item stay, and edit mode ends. Otherwise nothing changes and
        edit mode stays as it was. */
    method HandleSaveEdit()
      requires editIndex.Some? && !WhitespaceBetween(editedTodo, 0, |editedTodo|) ==>
        0 <= editIndex.index < |todos|
      modifies this`todos, this`editIndex, this`editedTodo
      ensures old(editIndex).Some? && !WhitespaceBetween(old(editedTodo), 0, |old(editedTodo)|) ==>
        var i := old(editIndex).index;
        && |todos| == |old(todos)|
        && todos[i] == Todo(Trim(old(editedTodo)), old(todos)[i].completed)
        && (forall j :: 0 <= j < |todos| && j != i ==> todos[j] == old(todos)[j])
        && editIndex == None && editedTodo == ""
      ensures old(editIndex).None? || WhitespaceBetween(old(editedTodo), 0, |old(editedTodo)|) ==>
        todos == old(todos) && editIndex == old(editIndex) && editedTodo == old(editedTodo)
      ensures WellFormed(old(todos)) ==> WellFormed(todos)
    {
      var trimmed := Trim(editedTodo);
      if editIndex.Some? && trimmed != "" {
        var i := editIndex.index;
        if WellFormed(todos) {
          ReplaceTextKeepsWellFormed(todos, i, editedTodo);
        }
        var updated := todos;
        updated := updated[i := updated[i].(text := trimmed)];
        todos := updated;
        editIndex := None;
        editedTodo := "";
      }
    }

    /** `handleToggleComplete`: an index inside the list flips that item's flag and
        nothing else; any other index changes nothing. The index is a position in
        the backing list. */
    method HandleToggleComplete(index: int)
      modifies this`todos
      ensures todos == ToggleAt(old(todos), index)
      ensures |todos| == |old(todos)|
      ensures 0 <= index < |todos| ==>
        todos[index] == Todo(old(todos)[index].text, !old(todos)[index].completed)
      ensures forall j :: 0 <= j < |todos| && j != index ==> todos[j] == old(todos)[j]
      ensures WellFormed(old(todos)) ==> WellFormed(todos)
    {
      if WellFormed(todos) {
        ToggleAtKeepsWellFormed(todos, index);
      }
      todos := ToggleAt(todos, index);
    }

    /** Delete as the row's button means it: the item shown at `row` of the
        rendered list is removed from the backing list, and nothing else is. */
    method HandleDeleteShownTodo(row: nat)
      requires row < |Shown()|
      modifies this`todos
      ensures todos == RemoveShown(old(todos), value, searchQuery, row)
      ensures multiset(todos) == multiset(old(todos)) - multiset{old(Shown())[row]}
      ensures WellFormed(old(todos)) ==> WellFormed(todos)
    {
      var j := ShownIndex(todos, value, searchQuery, row);
      if WellFormed(todos) {
        RemoveAtKeepsWellFormed(todos, j);
      }
      todos := RemoveShown(todos, value, searchQuery, row);
    }

    /** Toggle as the row's checkbox means it: the item shown at `row` of the
        rendered list flips its flag, and nothing else changes. */
    method HandleToggleShownTodo(row: nat)
      requires row < |Shown()|
      modifies this`todos
      ensures todos == ToggleShown(old(todos), value, searchQuery, row)
      ensures var j := ShownIndex(old(todos), value, searchQuery, row);
        todos[j] == Todo(old(Shown())[row].text, !old(Shown())[row].completed)
      ensures WellFormed(old(todos)) ==> WellFormed(todos)
    {
      var j := ShownIndex(todos, value, searchQuery, row);
      if WellFormed(todos) {
        ToggleAtKeepsWellFormed(todos, j);
      }
      todos := ToggleShown(todos, value, searchQuery, row);
    }
  }

  /** "Task A" and "Task B" are already trimmed. */
  lemma TaskNamesTrimmed()
    ensures Trim("Task A") == "Task A" && Trim("Task B") == "Task B"
  {
    TrimUnique("Task A", 0, 6);
    TrimUnique("Task B", 0, 6);
  }

  /** Starting empty, adding "Task A" and "Task B", completing the first and
      choosing `complete` shows "Task A" alone, while the list holds both in
      the order they were added. */
  method AddToggleFilterScenario() returns (shown: seq<Todo>, stored: seq<Todo>)
    ensures shown == [Todo("Task A", true)]
    ensures stored == [Todo("Task A", true), Todo("Task B", false)]
  {
    TaskNamesTrimmed();
    var c := new Todos([]);
    c.SetDialogOpen(true);
    c.SetNewTodo("Task A");
    assert !IsWhitespace(c.newTodo[0]);
    c.HandleAddTodo();
    c.SetDialogOpen(true);
    c.SetNewTodo("Task B");
    assert !IsWhitespace(c.newTodo[0]);
    c.HandleAddTodo();
    c.HandleToggleComplete(0);
    c.HandleChange("complete");
    stored := c.todos;
    assert stored == [Todo("Task A", true), Todo("Task B", false)];
    EmptySearchShowsStatus(stored, "complete");
    assert stored[1..] == [Todo("Task B", false)];
    shown := c.Shown();
  }
}
