/**
 * The to-do screen: the all / active / completed filter, the `created_at`
 * sort and its toggle, the blank-title guard and the status-toggle payload.
 */
module TodoList {
  import opened Wrappers
  import opened Text
  import opened StableSort

  /** A row of the `todo_items` table. */
  datatype TodoItem = TodoItem(id: int, title: string, completed: bool, createdAt: int)

  datatype FilterMode = All | Active | Completed

  datatype SortOrder = Asc | Desc

  /** The row `addTodo` submits; `completed` is left to the store's default. */
  datatype TodoInsert = TodoInsert(title: string, userId: UserId)

  /** The partial update `toggleTodo` submits for one id. */
  datatype StatusUpdate = StatusUpdate(id: int, completed: bool)

  /** The per-item test of the 'active' and 'completed' filters. */
  function Keeps(f: FilterMode): TodoItem -> bool {
    match f
    case All => (t: TodoItem) => true
    case Completed => (t: TodoItem) => t.completed
    case Active => (t: TodoItem) => !t.completed
  }

  /** The filter half of `filteredTodos`: 'all' is the state array itself. */
  function FilterTodos(todos: seq<TodoItem>, f: FilterMode): seq<TodoItem> {
    if f == All then todos else Filter(todos, Keeps(f))
  }

  /** 'asc' compares `a - b`; 'desc' compares `b - a`, the ascending order of the negated time. */
  function SortKey(o: SortOrder): TodoItem -> int {
    match o
    case Asc => (t: TodoItem) => t.createdAt
    case Desc => (t: TodoItem) => -t.createdAt
  }

  /** The sort half of `filteredTodos`. */
  function SortTodos(xs: seq<TodoItem>, o: SortOrder): (r: seq<TodoItem>)
    ensures multiset(r) == multiset(xs)
    ensures o == Asc ==> forall i, j :: 0 <= i < j < |r| ==> r[i].createdAt <= r[j].createdAt
    ensures o == Desc ==> forall i, j :: 0 <= i < j < |r| ==> r[i].createdAt >= r[j].createdAt
  {
    SortSorted(xs, SortKey(o));
    Sort(xs, SortKey(o))
  }

  /** Without two items created at the same time, 'desc' shows exactly the reverse of 'asc'. */
  lemma SortTodosReverse(xs: seq<TodoItem>)
    requires forall i, j :: 0 <= i < j < |xs| ==> xs[i].createdAt != xs[j].createdAt
    ensures SortTodos(xs, Desc) == Reverse(SortTodos(xs, Asc))
  {
    assert DistinctKeys(xs, SortKey(Asc));
    SortOppositeKeys(xs, SortKey(Asc), SortKey(Desc));
  }

  /** `filteredTodos`. */
  function FilteredTodos(todos: seq<TodoItem>, f: FilterMode, o: SortOrder): seq<TodoItem> {
    SortTodos(FilterTodos(todos, f), o)
  }

  /** 'completed' keeps exactly the completed items and 'active' exactly the others. */
  lemma FilterTodosExact(todos: seq<TodoItem>, f: FilterMode, x: TodoItem)
    ensures x in FilterTodos(todos, f)
        <==> x in todos && (f == Completed ==> x.completed) && (f == Active ==> !x.completed)
  {
    if f != All {
      FilterMembership(todos, Keeps(f), x);
    }
  }

  /** 'active' and 'completed' split the list: their counts add up to the count of 'all'. */
  lemma FilterTodosPartition(todos: seq<TodoItem>)
    ensures |FilterTodos(todos, Active)| + |FilterTodos(todos, Completed)| == |FilterTodos(todos, All)|
    ensures multiset(FilterTodos(todos, Active)) + multiset(FilterTodos(todos, Completed)) == multiset(todos)
  {
    FilterPartition(todos, Keeps(Active), Keeps(Completed));
  }

  /** The displayed list is the filtered items sorted, and a permutation of them. */
  lemma FilteredTodosSortedPermutation(todos: seq<TodoItem>, f: FilterMode, o: SortOrder)
    ensures multiset(FilteredTodos(todos, f, o)) == multiset(FilterTodos(todos, f))
    ensures var r := FilteredTodos(todos, f, o);
      forall i, j :: 0 <= i < j < |r| ==>
        if o == Asc then r[i].createdAt <= r[j].createdAt else r[i].createdAt >= r[j].createdAt
  {
  }

  /** Filtering the sorted state gives the same list as sorting the filtered state. */
  lemma FilteredTodosIsFilteredSort(todos: seq<TodoItem>, f: FilterMode, o: SortOrder)
    ensures FilteredTodos(todos, f, o) == Filter(SortTodos(todos, o), Keeps(f))
  {
    if f == All {
      SortSorted(todos, SortKey(o));
      FilterKeepsAll(SortTodos(todos, o), Keeps(f));
    } else {
      FilterSortCommute(todos, SortKey(o), Keeps(f));
    }
  }

  /** The sort button: `sortOrder === 'asc' ? 'desc' : 'asc'`. */
  function ToggledOrder(o: SortOrder): (r: SortOrder)
    ensures r != o
  {
    if o == Asc then Desc else Asc
  }

  lemma ToggleOrderTwice(o: SortOrder)
    ensures ToggledOrder(ToggledOrder(o)) == o
  {
  }

  /** `toggleTodo(id, currentStatus)`: the update written is the negation of the current status. */
  function ToggleTodo(id: int, currentStatus: bool): (u: StatusUpdate)
    ensures u.id == id && u.completed == !currentStatus
  {
    StatusUpdate(id, !currentStatus)
  }

  /** What the store does with a `StatusUpdate` to one row. */
  function ApplyStatus(u: StatusUpdate): TodoItem -> TodoItem {
    (t: TodoItem) => if t.id == u.id then t.(completed := u.completed) else t
  }

  /** Toggling an item and then toggling the refreshed item restores the row. */
  lemma ToggleTodoTwice(t: TodoItem)
    ensures var once := ApplyStatus(ToggleTodo(t.id, t.completed))(t);
            ApplyStatus(ToggleTodo(once.id, once.completed))(once) == t
  {
  }

  /** A toggle applied to the collection leaves every item at its place under the active sort. */
  lemma ToggleKeepsPosition(todos: seq<TodoItem>, o: SortOrder, u: StatusUpdate)
    ensures SortTodos(Map(todos, ApplyStatus(u)), o) == Map(SortTodos(todos, o), ApplyStatus(u))
  {
    SortMap(todos, SortKey(o), ApplyStatus(u));
  }

  /** The state of the to-do screen. */
  class TodoScreen {
    var todos: seq<TodoItem>
    var filter: FilterMode
    var sortOrder: SortOrder
    var newTitle: string
    var modalVisible: bool

    constructor ()
      ensures todos == [] && filter == All && sortOrder == Desc && newTitle == "" && !modalVisible
    {
      todos, filter, sortOrder := [], All, Desc;
      newTitle, modalVisible := "", false;
    }

    /** Evaluating `filteredTodos` during a render. With 'all' the state array itself is sorted in
        place, so `todos` is left in display order; otherwise a fresh filtered copy is sorted. Either
        way a second render shows the same list. */
    method Render() returns (view: seq<TodoItem>)
      modifies this
      ensures view == FilteredTodos(old(todos), filter, sortOrder)
      ensures todos == (if filter == All then view else old(todos))
      ensures FilteredTodos(todos, filter, sortOrder) == view
      ensures filter == old(filter) && sortOrder == old(sortOrder)
      ensures newTitle == old(newTitle) && modalVisible == old(modalVisible)
    {
      if filter == All {
        todos := SortTodos(todos, sortOrder);
        view := todos;
        SortIdempotent(old(todos), SortKey(sortOrder));
      } else {
        view := SortTodos(Filter(todos, Keeps(filter)), sortOrder);
      }
    }

    /** The All / Active / Completed buttons. */
    method SetFilter(f: FilterMode)
      modifies this
      ensures filter == f
      ensures todos == old(todos) && sortOrder == old(sortOrder)
      ensures newTitle == old(newTitle) && modalVisible == old(modalVisible)
    {
      filter := f;
    }

    /** The sort button. */
    method ToggleSortOrder()
      modifies this
      ensures sortOrder == ToggledOrder(old(sortOrder))
      ensures todos == old(todos) && filter == old(filter)
      ensures newTitle == old(newTitle) && modalVisible == old(modalVisible)
    {
      sortOrder := ToggledOrder(sortOrder);
    }

    /** `fetchTodos`: on success the collection is replaced by the rows as returned; without a user
        or on an error nothing changes. */
    method FetchTodos(user: Option<UserId>, response: Result<seq<TodoItem>>)
      modifies this
      ensures todos == (if user.Some? && response.Ok? then response.value else old(todos))
      ensures filter == old(filter) && sortOrder == old(sortOrder)
      ensures newTitle == old(newTitle) && modalVisible == old(modalVisible)
    {
      if user.None? || response.Err? {
        return;
      }
      todos := response.value;
    }

    /** `addTodo`: returns the row submitted (none when the title is blank or no user is signed in)
        and whether a refresh follows. */
    method AddTodo(user: Option<UserId>, response: Outcome) returns (request: Option<TodoInsert>, refresh: bool)
      modifies this
      ensures request.Some? <==> !IsBlank(old(newTitle)) && user.Some?
      ensures request.Some? ==> request.value == TodoInsert(old(newTitle), user.value)
      ensures refresh <==> request.Some? && response.Success?
      ensures refresh ==> newTitle == "" && !modalVisible
      ensures !refresh ==> newTitle == old(newTitle) && modalVisible == old(modalVisible)
      ensures todos == old(todos) && filter == old(filter) && sortOrder == old(sortOrder)
    {
      request, refresh := None, false;
      if IsBlank(newTitle) {
        return;
      }
      if user.None? {
        return;
      }
      request := Some(TodoInsert(newTitle, user.value));
      if response.Success? {
        newTitle, modalVisible := "", false;
        refresh := true;
      }
    }
  }
}
