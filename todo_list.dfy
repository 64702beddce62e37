/** The list transforms of the `Todos` component: deleting by index (a `filter`),
    toggling by index (a `map`), the visible list (two chained `filter`s), and
    how a row of the visible list relates to a position in the backing list. */
module TodoList {
  import opened Text
  import opened Sequences

  /** One entry of the list: its text and whether it is done. */
  datatype Todo = Todo(text: string, completed: bool)

  /** What the add and save handlers store: every text is trimmed and not empty. */
  predicate WellFormed(todos: seq<Todo>) {
    forall i :: 0 <= i < |todos| ==> todos[i].text != [] && Trim(todos[i].text) == todos[i].text
  }

  // ---------------------------------------------------------------------------
  // Delete and toggle

  /** Delete: the index filter that keeps every position but `index`. It never
      lengthens the list. */
  function RemoveAt(todos: seq<Todo>, index: int): (r: seq<Todo>)
    ensures |r| <= |todos|
  {
    FilterWithIndex(todos, (_, i) => i != index)
  }

  /** Removing at an index inside the list drops exactly that element and keeps
      the others in order; any other index leaves the list as it was. */
  lemma {:induction false} RemoveAtSlices(todos: seq<Todo>, index: int)
    ensures 0 <= index < |todos| ==> RemoveAt(todos, index) == todos[..index] + todos[index + 1..]
    ensures !(0 <= index < |todos|) ==> RemoveAt(todos, index) == todos
  {
    if todos != [] {
      var last := |todos| - 1;
      var init := todos[..last];
      RemoveAtSlices(init, index);
      assert RemoveAt(todos, index)
        == RemoveAt(init, index) + (if last != index then [todos[last]] else []);
      if 0 <= index < last {
        assert init[..index] == todos[..index];
        assert init[index + 1..] + [todos[last]] == todos[index + 1..];
      } else if index == last {
        assert todos[index + 1..] == [];
      } else {
        assert init + [todos[last]] == todos;
      }
    }
  }

  /** Deleting at an index inside the list takes out one copy of that element and
      shortens the list by one. */
  lemma RemoveAtCounts(todos: seq<Todo>, index: int)
    requires 0 <= index < |todos|
    ensures |RemoveAt(todos, index)| == |todos| - 1
    ensures multiset(RemoveAt(todos, index)) == multiset(todos) - multiset{todos[index]}
  {
    RemoveAtSlices(todos, index);
    assert todos == todos[..index] + [todos[index]] + todos[index + 1..];
  }

  /** Toggle: the index map that flips the `completed` flag of the item at
      `index` and returns every other item as it is. Only that flag changes, and
      an index outside the list changes nothing at all. */
  function ToggleAt(todos: seq<Todo>, index: int): (r: seq<Todo>)
    ensures |r| == |todos|
    ensures forall j :: 0 <= j < |todos| && j != index ==> r[j] == todos[j]
    ensures 0 <= index < |todos| ==>
      r[index].text == todos[index].text && r[index].completed == !todos[index].completed
    ensures !(0 <= index < |todos|) ==> r == todos
  {
    MapWithIndex(todos, (todo: Todo, i) => if i == index then todo.(completed := !todo.completed) else todo)
  }

  /** Toggling the same index twice gives back the original list. */
  lemma ToggleAtTwice(todos: seq<Todo>, index: int)
    ensures ToggleAt(ToggleAt(todos, index), index) == todos
  {
    var r := ToggleAt(ToggleAt(todos, index), index);
    assert forall j :: 0 <= j < |todos| ==> r[j] == todos[j];
  }

  // ---------------------------------------------------------------------------
  // The handlers keep the list well formed

  /** Appending the trimmed form of a text that is not whitespace only keeps
      every stored text trimmed and not empty. */
  lemma AppendKeepsWellFormed(todos: seq<Todo>, text: string)
    requires WellFormed(todos) && Trim(text) != []
    ensures WellFormed(todos + [Todo(Trim(text), false)])
  {
    TrimIdempotent(text);
  }

  /** Deleting keeps the list well formed. */
  lemma RemoveAtKeepsWellFormed(todos: seq<Todo>, index: int)
    requires WellFormed(todos)
    ensures WellFormed(RemoveAt(todos, index))
  {
    RemoveAtSlices(todos, index);
    var r := RemoveAt(todos, index);
    if 0 <= index < |todos| {
      forall j | 0 <= j < |r| ensures r[j].text != [] && Trim(r[j].text) == r[j].text {
        assert r[j] == if j < index then todos[j] else todos[j + 1];
      }
    }
  }

  /** Toggling keeps the list well formed. */
  lemma ToggleAtKeepsWellFormed(todos: seq<Todo>, index: int)
    requires WellFormed(todos)
    ensures WellFormed(ToggleAt(todos, index))
  {
  }

  /** Replacing the text at an index by the trimmed form of a text that is not
      whitespace only keeps the list well formed. */
  lemma ReplaceTextKeepsWellFormed(todos: seq<Todo>, index: int, text: string)
    requires WellFormed(todos) && 0 <= index < |todos| && Trim(text) != []
    ensures WellFormed(todos[index := Todo(Trim(text), todos[index].completed)])
  {
    TrimIdempotent(text);
  }

  // ---------------------------------------------------------------------------
  // The visible list

  /** The status filter: `complete` shows the completed items, `incomplete` the
      others, and any other value shows everything. */
  predicate StatusShows(value: string, todo: Todo) {
    if value == "complete" then todo.completed
    else if value == "incomplete" then !todo.completed
    else true
  }

  /** The search: the item's lower-cased text contains the lower-cased query,
      so the match ignores case. */
  predicate SearchShows(searchQuery: string, todo: Todo) {
    Includes(Lower(todo.text), Lower(searchQuery))
  }

  function StatusTest(value: string): Todo -> bool {
    todo => StatusShows(value, todo)
  }

  function SearchTest(searchQuery: string): Todo -> bool {
    todo => SearchShows(searchQuery, todo)
  }

  /** Both tests at once. */
  function Shows(value: string, searchQuery: string): Todo -> bool {
    todo => StatusShows(value, todo) && SearchShows(searchQuery, todo)
  }

  /** `filteredTodos`: the status filter, then the search. No more items than the
      list holds, and every one of them passes both tests. */
  function FilteredTodos(todos: seq<Todo>, value: string, searchQuery: string): (r: seq<Todo>)
    ensures |r| <= |todos|
    ensures forall i :: 0 <= i < |r| ==> StatusShows(value, r[i]) && SearchShows(searchQuery, r[i])
  {
    FilterFilter(todos, StatusTest(value), SearchTest(searchQuery), Shows(value, searchQuery));
    Filter(Filter(todos, StatusTest(value)), SearchTest(searchQuery))
  }

  /** The two chained filters are one filter by both tests. */
  lemma FilteredTodosOneFilter(todos: seq<Todo>, value: string, searchQuery: string)
    ensures FilteredTodos(todos, value, searchQuery) == Filter(todos, Shows(value, searchQuery))
  {
    FilterFilter(todos, StatusTest(value), SearchTest(searchQuery), Shows(value, searchQuery));
  }

  /** The visible list keeps the order of the backing list, and holds every copy of
      each item that passes both tests and no item that fails one. */
  lemma FilteredTodosExactly(todos: seq<Todo>, value: string, searchQuery: string)
    ensures var view := FilteredTodos(todos, value, searchQuery);
      && IsSubsequence(view, todos)
      && forall t :: multiset(view)[t]
           == if StatusShows(value, t) && SearchShows(searchQuery, t) then multiset(todos)[t] else 0
  {
    FilteredTodosOneFilter(todos, value, searchQuery);
    FilterIsSubsequence(todos, Shows(value, searchQuery));
    FilterCounts(todos, Shows(value, searchQuery));
  }

  /** Every item's text includes the empty search, so an empty search hides nothing. */
  lemma EmptySearchShowsStatus(todos: seq<Todo>, value: string)
    ensures FilteredTodos(todos, value, "") == Filter(todos, StatusTest(value))
  {
    var f := Filter(todos, StatusTest(value));
    assert Lower("") == "";
    forall i | 0 <= i < |f| ensures SearchTest("")(f[i]) {
      assert SearchShows("", f[i]);
    }
    FilterKeepsAll(f, SearchTest(""));
  }

  /** With the filter `complete` and no search, the visible list is exactly the
      completed items, in order and with every copy. */
  lemma CompleteShowsCompleted(todos: seq<Todo>)
    ensures var view := FilteredTodos(todos, "complete", "");
      && IsSubsequence(view, todos)
      && (forall t :: t in view ==> t.completed)
      && (forall t: Todo :: t.completed ==> multiset(view)[t] == multiset(todos)[t])
  {
    EmptySearchShowsStatus(todos, "complete");
    FilterIsSubsequence(todos, StatusTest("complete"));
    FilterCounts(todos, StatusTest("complete"));
    FilterMembers(todos, StatusTest("complete"));
  }

  /** With the filter `incomplete` and no search, the visible list is exactly the
      items not yet completed, in order and with every copy. */
  lemma IncompleteShowsIncomplete(todos: seq<Todo>)
    ensures var view := FilteredTodos(todos, "incomplete", "");
      && IsSubsequence(view, todos)
      && (forall t :: t in view ==> !t.completed)
      && (forall t: Todo :: !t.completed ==> multiset(view)[t] == multiset(todos)[t])
  {
    EmptySearchShowsStatus(todos, "incomplete");
    FilterIsSubsequence(todos, StatusTest("incomplete"));
    FilterCounts(todos, StatusTest("incomplete"));
    FilterMembers(todos, StatusTest("incomplete"));
  }

  /** The `complete` and the `incomplete` views split the list between them. */
  lemma CompleteIncompleteSplit(todos: seq<Todo>)
    ensures |FilteredTodos(todos, "complete", "")| + |FilteredTodos(todos, "incomplete", "")| == |todos|
  {
    EmptySearchShowsStatus(todos, "complete");
    EmptySearchShowsStatus(todos, "incomplete");
    FilterComplement(todos, StatusTest("complete"), StatusTest("incomplete"));
  }

  /** Any other filter value with no search shows the whole list. */
  lemma OtherFilterShowsAll(todos: seq<Todo>, value: string)
    requires value != "complete" && value != "incomplete"
    ensures FilteredTodos(todos, value, "") == todos
  {
    EmptySearchShowsStatus(todos, value);
    FilterKeepsAll(todos, StatusTest(value));
  }

  /** Under a filter value that restricts nothing, the search keeps exactly the items
      whose lower-cased text contains the lower-cased query somewhere. */
  lemma SearchShowsMatches(todos: seq<Todo>, value: string, searchQuery: string)
    requires value != "complete" && value != "incomplete"
    ensures var view := FilteredTodos(todos, value, searchQuery);
      && IsSubsequence(view, todos)
      && forall t :: t in view <==>
           t in todos && exists k :: OccursAt(Lower(t.text), Lower(searchQuery), k)
  {
    FilteredTodosExactly(todos, value, searchQuery);
    FilteredTodosOneFilter(todos, value, searchQuery);
    FilterMembers(todos, Shows(value, searchQuery));
    forall t ensures SearchShows(searchQuery, t) <==> exists k :: OccursAt(Lower(t.text), Lower(searchQuery), k) {
      IncludesIff(Lower(t.text), Lower(searchQuery));
    }
  }

  /** A text that lacks the first character of the query does not include it. */
  lemma MissingFirstCharNotIncluded(hay: string, needle: string)
    requires needle != [] && needle[0] !in hay
    ensures !Includes(hay, needle)
  {
    IncludesIff(hay, needle);
  }

  /** "eat pizza" matches the query "PIZ" once both are lower-cased. */
  lemma PizzaMatches()
    ensures SearchShows("PIZ", Todo("eat pizza", true))
  {
    assert LowerChar('P') == 'p' && LowerChar('I') == 'i' && LowerChar('Z') == 'z';
    assert Lower("PIZ") == "piz";
    LowerWithoutCapitals("eat pizza");
    var hay := "eat pizza";
    assert "piz" <= hay[4..];
    assert hay[4..] == hay[1..][1..][1..][1..];
  }

  /** "Buy Milk" has no `p`, so it does not match "PIZ". */
  lemma MilkDoesNotMatch()
    ensures !SearchShows("PIZ", Todo("Buy Milk", false))
  {
    assert LowerChar('P') == 'p' && LowerChar('I') == 'i' && LowerChar('Z') == 'z';
    assert Lower("PIZ") == "piz";
    assert Lower("Buy Milk") == "buy milk";
    MissingFirstCharNotIncluded("buy milk", "piz");
  }

  /** The search ignores case: a list with "Buy Milk" and a completed "eat pizza",
      searched for "PIZ" under `all`, shows the pizza item alone. */
  lemma SearchExample()
    ensures FilteredTodos([Todo("Buy Milk", false), Todo("eat pizza", true)], "all", "PIZ")
      == [Todo("eat pizza", true)]
  {
    var milk, pizza := Todo("Buy Milk", false), Todo("eat pizza", true);
    PizzaMatches();
    MilkDoesNotMatch();
    FilterKeepsAll([milk, pizza], StatusTest("all"));
    assert [milk, pizza][1..] == [pizza];
    assert Filter([milk, pizza], SearchTest("PIZ")) == Filter([pizza], SearchTest("PIZ"));
  }

  // ---------------------------------------------------------------------------
  // Rows of the visible list and positions in the backing list

  /** The position in the backing list of the item shown at `row` of the visible list. */
  function ShownIndex(todos: seq<Todo>, value: string, searchQuery: string, row: nat): (j: nat)
    requires row < |FilteredTodos(todos, value, searchQuery)|
    ensures row <= j < |todos| && todos[j] == FilteredTodos(todos, value, searchQuery)[row]
  {
    FilteredTodosOneFilter(todos, value, searchQuery);
    PositionsLocate(todos, Shows(value, searchQuery));
    Positions(todos, Shows(value, searchQuery))[row]
  }

  /** Later rows show later items of the backing list. */
  lemma ShownIndexIncreasing(todos: seq<Todo>, value: string, searchQuery: string, row: nat, row': nat)
    requires row < row' < |FilteredTodos(todos, value, searchQuery)|
    ensures ShownIndex(todos, value, searchQuery, row) < ShownIndex(todos, value, searchQuery, row')
  {
    FilteredTodosOneFilter(todos, value, searchQuery);
    PositionsLocate(todos, Shows(value, searchQuery));
  }

  /** A row number names the same item in the visible and in the backing list, for
      every row, exactly when the visible list is a prefix of the backing list. */
  lemma RowsAreIndexesIff(todos: seq<Todo>, value: string, searchQuery: string)
    ensures var view := FilteredTodos(todos, value, searchQuery);
      (forall row: nat :: row < |view| ==> ShownIndex(todos, value, searchQuery, row) == row)
      <==> view == todos[..|view|]
  {
    var view := FilteredTodos(todos, value, searchQuery);
    var ps := Positions(todos, Shows(value, searchQuery));
    FilteredTodosOneFilter(todos, value, searchQuery);
    PositionsLocate(todos, Shows(value, searchQuery));
    PositionsIdentityIff(todos, Shows(value, searchQuery));
    assert forall row: nat :: row < |view| ==> ShownIndex(todos, value, searchQuery, row) == ps[row];
  }

  /** In particular they agree when nothing is filtered out. */
  lemma WholeViewRowsAreIndexes(todos: seq<Todo>, value: string, searchQuery: string, row: nat)
    requires FilteredTodos(todos, value, searchQuery) == todos && row < |todos|
    ensures ShownIndex(todos, value, searchQuery, row) == row
  {
    RowsAreIndexesIff(todos, value, searchQuery);
  }

  /** As the component is written, a row number from a filtered view is applied to
      the backing list: with a completed "a" and an open "b" under `incomplete`,
      deleting the only row (showing "b") removes "a" and leaves "b". */
  lemma RowDeleteRemovesHiddenItem()
    ensures var todos := [Todo("a", true), Todo("b", false)];
      && FilteredTodos(todos, "incomplete", "") == [Todo("b", false)]
      && RemoveAt(todos, 0) == [Todo("b", false)]
  {
    var todos := [Todo("a", true), Todo("b", false)];
    EmptySearchShowsStatus(todos, "incomplete");
    assert Filter(todos[1..], StatusTest("incomplete")) == [todos[1]];
    RemoveAtSlices(todos, 0);
  }

  /** Likewise toggling the only row of that view (showing "b") completes nothing
      that is shown: it reopens the hidden "a" and "b" stays open. */
  lemma RowToggleFlipsHiddenItem()
    ensures var todos := [Todo("a", true), Todo("b", false)];
      && FilteredTodos(todos, "incomplete", "") == [Todo("b", false)]
      && ToggleAt(todos, 0) == [Todo("a", false), Todo("b", false)]
  {
    var todos := [Todo("a", true), Todo("b", false)];
    EmptySearchShowsStatus(todos, "incomplete");
    assert Filter(todos[1..], StatusTest("incomplete")) == [todos[1]];
    assert ToggleAt(todos, 0)[0] == Todo("a", false);
  }

  /** Deleting the item shown at a row: exactly one copy of that item leaves the
      backing list, and the rest keep their order. */
  function RemoveShown(todos: seq<Todo>, value: string, searchQuery: string, row: nat): (r: seq<Todo>)
    requires row < |FilteredTodos(todos, value, searchQuery)|
    ensures var j := ShownIndex(todos, value, searchQuery, row);
      r == todos[..j] + todos[j + 1..]
    ensures multiset(r) == multiset(todos) - multiset{FilteredTodos(todos, value, searchQuery)[row]}
  {
    var j := ShownIndex(todos, value, searchQuery, row);
    RemoveAtSlices(todos, j);
    RemoveAtCounts(todos, j);
    RemoveAt(todos, j)
  }

  /** Toggling the item shown at a row: that item, and only it, flips its flag. */
  function ToggleShown(todos: seq<Todo>, value: string, searchQuery: string, row: nat): (r: seq<Todo>)
    requires row < |FilteredTodos(todos, value, searchQuery)|
    ensures var j, shown := ShownIndex(todos, value, searchQuery, row), FilteredTodos(todos, value, searchQuery)[row];
      && |r| == |todos|
      && r[j] == Todo(shown.text, !shown.completed)
      && forall k :: 0 <= k < |todos| && k != j ==> r[k] == todos[k]
  {
    ToggleAt(todos, ShownIndex(todos, value, searchQuery, row))
  }
}
