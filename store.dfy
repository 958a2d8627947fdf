/** The in-memory list store of todo-app/app.js: the module-level `lists` and
    `currentListId`, and the functions that update them. */
module Store {
  import opened Options
  import opened Text
  import opened Sequences
  import opened Records

  /** The key a keyboard event carries, as far as task reordering cares. */
  datatype Key = ArrowUp | ArrowDown | OtherKey

  /** `handleTaskKeyboard`: the move (from, to) it requests for a task at
      `currentIndex` among `total` rendered tasks, if any. */
  function KeyboardMove(key: Key, currentIndex: int, total: nat): (m: Option<(int, int)>)
    ensures m.Some? ==> m.value.0 == currentIndex
    ensures m.Some? && key == ArrowUp ==> m.value.1 == currentIndex - 1
    ensures m.Some? && key == ArrowDown ==> m.value.1 == currentIndex + 1
    ensures key == OtherKey ==> m.None?
    ensures 0 <= currentIndex < total ==>
      (m.Some? ==> 0 <= m.value.1 < total)
      && (m.None? <==> key == OtherKey || (key == ArrowUp && currentIndex == 0)
                       || (key == ArrowDown && currentIndex == total - 1))
  {
    match key
    case ArrowUp => if currentIndex > 0 then Some((currentIndex, currentIndex - 1)) else None
    case ArrowDown => if currentIndex < total - 1 then Some((currentIndex, currentIndex + 1)) else None
    case OtherKey => None
  }

  /** A keyboard move over task positions names two tasks, and the opposite
      arrow key pressed on the moved task undoes it. The positions are those
      among the task elements, as `KeyboardMoveOnPage` computes them. */
  lemma KeyboardMoveUndone(tasks: seq<Task>, key: Key, currentIndex: int)
    requires 0 <= currentIndex < |tasks|
    requires KeyboardMove(key, currentIndex, |tasks|).Some?
    ensures var (from, to) := KeyboardMove(key, currentIndex, |tasks|).value;
            && 0 <= from < |tasks| && 0 <= to < |tasks|
            && KeyboardMove(if key == ArrowUp then ArrowDown else ArrowUp, to, |tasks|) == Some((to, from))
            && Moved(Moved(tasks, from, to), to, from) == tasks
  {
    var (from, to) := KeyboardMove(key, currentIndex, |tasks|).value;
    MoveBack(tasks, from, to);
  }

  /** The drag-and-drop and keyboard handlers move the dragged element in the
      page after its drop target when moving forward and before it when moving
      backward; over task positions the data move leaves the tasks in that same
      order. */
  lemma MovePlacesBesideTarget<T>(tasks: seq<T>, from: nat, to: nat)
    requires from < |tasks| && to < |tasks| && from != to
    ensures from < to ==> Moved(tasks, from, to)[to - 1] == tasks[to]
    ensures to < from ==> Moved(tasks, from, to)[to + 1] == tasks[to]
    ensures Moved(tasks, from, to)[to] == tasks[from]
  {
    MovedAt(tasks, from, to);
  }

  // ----- the page's task container, as far as the handlers index it -----

  /** A child of the task container: the "No tasks yet" paragraph that
      `renderTasks` writes for an empty list, or the element of one task. */
  datatype Child = Placeholder | TaskItem(taskId: Id)

  /** The ids of the task elements among `page`, in page order. */
  function ItemIds(page: seq<Child>): (r: seq<Id>)
    ensures |r| <= |page|
  {
    if page == [] then []
    else (if page[0].TaskItem? then [page[0].taskId] else []) + ItemIds(page[1..])
  }

  /** The ids of `tasks`, in order. */
  function TaskIds(tasks: seq<Task>): (r: seq<Id>)
    ensures |r| == |tasks| && forall k :: 0 <= k < |tasks| ==> r[k] == tasks[k].id
  {
    seq(|tasks|, k requires 0 <= k < |tasks| => tasks[k].id)
  }

  lemma {:induction false} ItemIdsAppend(a: seq<Child>, b: seq<Child>)
    ensures ItemIds(a + b) == ItemIds(a) + ItemIds(b)
  {
    if a == [] {
      assert a + b == b;
    } else {
      assert (a + b)[0] == a[0] && (a + b)[1..] == a[1..] + b;
      ItemIdsAppend(a[1..], b);
    }
  }

  /** Moving the element at 1 before the placeholder keeps the task elements in order. */
  lemma PlaceholderPageAfterMove(id1: Id, id2: Id)
    ensures ItemIds(Moved([Placeholder, TaskItem(id1), TaskItem(id2)], 1, 0)) == [id1, id2]
  {
    var moved := [TaskItem(id1), Placeholder, TaskItem(id2)];
    MoveSecondToFront(Placeholder, TaskItem(id1), TaskItem(id2));
    assert ItemIds(moved[1..]) == [id2] by {
      assert moved[1..] == [Placeholder, TaskItem(id2)];
      assert moved[1..][1..] == [TaskItem(id2)];
      assert [TaskItem(id2)][1..] == [];
    }
  }

  /** Moving the second of two elements to the front swaps them. */
  lemma MoveSecondOfTwo<T>(a: T, b: T)
    ensures Moved([a, b], 1, 0) == [b, a]
  {
    var s := [a, b];
    assert s[..1] + s[2..] == [a];
    assert [a][..0] + [b] + [a][0..] == [b, a];
  }

  /** Moving the second of three elements to the front. */
  lemma MoveSecondToFront<T>(a: T, b: T, c: T)
    ensures Moved([a, b, c], 1, 0) == [b, a, c]
  {
    var s := [a, b, c];
    assert s[..1] + s[2..] == [a, c];
    assert [a, c][..0] + [b] + [a, c][0..] == [b, a, c];
  }

  /** As written, `handleTaskKeyboard` passes indices among all children of the
      container. After an empty list is shown with its placeholder and `addTask`
      appends t1 and t2, the page is [placeholder, t1, t2]: ArrowUp on t1 asks
      for `reorderTasks(1, 0)`, which moves t2 instead, so the page and the data
      disagree; ArrowUp on t2 asks for `reorderTasks(2, 1)`, which names no task
      although the page moves the element. */
  lemma PlaceholderMisdirectsKeyboardMove(t1: Task, t2: Task)
    requires t1.id != t2.id
    ensures var page := [Placeholder, TaskItem(t1.id), TaskItem(t2.id)];
            && ItemIds(page) == TaskIds([t1, t2])
            && KeyboardMove(ArrowUp, 1, |page|) == Some((1, 0))
            && Moved([t1, t2], 1, 0) == [t2, t1]
            && ItemIds(Moved(page, 1, 0)) != TaskIds(Moved([t1, t2], 1, 0))
            && KeyboardMove(ArrowUp, 2, |page|) == Some((2, 1))
            && 2 >= |[t1, t2]|
  {
    var page := [Placeholder, TaskItem(t1.id), TaskItem(t2.id)];
    assert ItemIds([TaskItem(t2.id)]) == [t2.id] by {
      assert [TaskItem(t2.id)][1..] == [];
    }
    assert ItemIds(page[1..]) == [t1.id, t2.id] by {
      assert page[1..] == [TaskItem(t1.id), TaskItem(t2.id)];
      assert page[1..][1..] == [TaskItem(t2.id)];
    }
    assert ItemIds(page) == [t1.id, t2.id];
    var ids := TaskIds([t1, t2]);
    assert |ids| == 2 && ids[0] == t1.id && ids[1] == t2.id;
    assert ids == [t1.id, t2.id];
    MoveSecondOfTwo(t1, t2);
    PlaceholderPageAfterMove(t1.id, t2.id);
    assert TaskIds([t2, t1])[0] == t2.id;
  }

  /** The position of the element at `pageIndex` among the task elements: the
      index the handlers evidently mean to pass to `reorderTasks`. */
  function TaskPosition(page: seq<Child>, pageIndex: nat): nat
    requires pageIndex <= |page|
  {
    |ItemIds(page[..pageIndex])|
  }

  /** `handleTaskKeyboard` over task positions: the move it evidently intends
      for the element at `pageIndex`. */
  function KeyboardMoveOnPage(key: Key, page: seq<Child>, pageIndex: nat): Option<(int, int)>
    requires pageIndex < |page|
  {
    KeyboardMove(key, TaskPosition(page, pageIndex), |ItemIds(page)|)
  }

  /** `handleDrop` over task positions: the move it evidently intends for
      dropping the element at `dragged` on the element at `drop`. */
  function DropMove(page: seq<Child>, dragged: nat, drop: nat): (nat, nat)
    requires dragged < |page| && drop < |page|
  {
    (TaskPosition(page, dragged), TaskPosition(page, drop))
  }

  /** On a page whose task elements show `tasks` in order, with or without a
      placeholder anywhere, the position of a task element is the index of its
      task; so the corrected keyboard and drop moves name in-range tasks, the
      one moved being the one whose element was used. */
  lemma TaskPositionFindsShownTask(tasks: seq<Task>, page: seq<Child>, pageIndex: nat)
    requires ItemIds(page) == TaskIds(tasks)
    requires pageIndex < |page| && page[pageIndex].TaskItem?
    ensures TaskPosition(page, pageIndex) < |tasks|
    ensures tasks[TaskPosition(page, pageIndex)].id == page[pageIndex].taskId
    ensures forall key :: KeyboardMoveOnPage(key, page, pageIndex).Some? ==>
      var (from, to) := KeyboardMoveOnPage(key, page, pageIndex).value;
      from == TaskPosition(page, pageIndex) && 0 <= to < |tasks|
  {
    var p := pageIndex;
    assert page == page[..p] + page[p..];
    ItemIdsAppend(page[..p], page[p..]);
    assert page[p..][1..] == page[p + 1..];
    assert ItemIds(page[p..]) == [page[p].taskId] + ItemIds(page[p + 1..]);
    assert ItemIds(page)[|ItemIds(page[..p])|] == page[p].taskId;
  }

  /** With the correction the placeholder page behaves: ArrowUp on t1, the first
      task, asks for no move, and ArrowUp on t2 moves t2 to the front. */
  lemma CorrectedKeyboardMoveOnPlaceholderPage(t1: Task, t2: Task)
    ensures var page := [Placeholder, TaskItem(t1.id), TaskItem(t2.id)];
            && KeyboardMoveOnPage(ArrowUp, page, 1) == None
            && KeyboardMoveOnPage(ArrowUp, page, 2) == Some((1, 0))
            && Moved([t1, t2], 1, 0) == [t2, t1]
  {
    var page := [Placeholder, TaskItem(t1.id), TaskItem(t2.id)];
    assert ItemIds([TaskItem(t2.id)]) == [t2.id] by {
      assert [TaskItem(t2.id)][1..] == [];
    }
    assert ItemIds(page[1..]) == [t1.id, t2.id] by {
      assert page[1..] == [TaskItem(t1.id), TaskItem(t2.id)];
      assert page[1..][1..] == [TaskItem(t2.id)];
    }
    assert ItemIds(page) == [t1.id, t2.id];
    assert page[..1] == [Placeholder] && page[..1][1..] == [];
    assert ItemIds(page[..1]) == [];
    assert page[..2] == [Placeholder, TaskItem(t1.id)] && page[..2][1..][1..] == [];
    assert ItemIds(page[..2]) == [t1.id];
    MovedAt([t1, t2], 1, 0);
  }

  /** Moving the first of three tasks to index 2 gives [B, C, A]. */
  lemma MoveFirstToLast<T>(a: T, b: T, c: T)
    ensures Moved([a, b, c], 0, 2) == [b, c, a]
  {
    MovedAt([a, b, c], 0, 2);
  }

  class ListStore {
    /** `lists`: every list, in display order. */
    var lists: seq<TodoList>
    /** `currentListId`: None is `null`, the dashboard. */
    var current: Option<Id>
    /** The snapshot most recently written to storage under `todoLists`. */
    var stored: seq<TodoList>

    /** `currentListId` is truthy: neither `null` nor the empty string. */
    predicate HasCurrent()
      reads this
      ensures HasCurrent() ==> current.Some?
      ensures current == Some("") ==> !HasCurrent()
    {
      current.Some? && current.value != ""
    }

    /** A truthy current id names an existing list. */
    predicate CurrentExists()
      reads this
    {
      HasCurrent() ==> FindList(lists, current.value).Some?
    }

    /** The page starts with no lists and on the dashboard; storage holds
        whatever an earlier session left there. */
    constructor (persisted: seq<TodoList>)
      ensures lists == [] && current == None && stored == persisted
    {
      lists := [];
      current := None;
      stored := persisted;
    }

    /** `saveListsToStorage(lists)`, with the write assumed to succeed. */
    method Save()
      modifies this
      ensures stored == lists
      ensures lists == old(lists) && current == old(current)
    {
      stored := lists;
    }

    /** `addList`: rejects an empty trimmed name and a name some list already
        has ignoring case; otherwise appends a new list and saves. */
    method AddList(listName: string, id: Id, createdAt: Timestamp, updatedAt: Timestamp)
      modifies this
      ensures current == old(current)
      ensures Trim(listName) == [] || NameTaken(old(lists), listName) ==>
        lists == old(lists) && stored == old(stored)
      ensures Trim(listName) != [] && !NameTaken(old(lists), listName) ==>
        lists == old(lists) + [CreateListObject(listName, id, createdAt, updatedAt)] && stored == lists
      ensures NamesUnique(old(lists)) ==> NamesUnique(lists)
      ensures ListIdsUnique(old(lists)) && IdFresh(old(lists), id) ==> ListIdsUnique(lists)
      ensures old(CurrentExists()) ==> CurrentExists()
    {
      if Trim(listName) == [] {
        return;
      }
      var existing := FindNameClash(lists, listName, None);
      AddListCheck(lists, listName);
      if existing.Some? {
        return;
      }
      var newList := CreateListObject(listName, id, createdAt, updatedAt);
      TrimIdempotent(listName);
      AppendKeepsUnique(lists, newList);
      if HasCurrent() {
        FindListByIds(lists, (lists + [newList])[..|lists|], current.value);
        assert (lists + [newList])[..|lists|] == lists;
      }
      lists := lists + [newList];
      Save();
    }

    /** `editListName`: ignores an unknown id, rejects an empty trimmed name and
        a name held by a list with another id; otherwise renames the first list
        with the id, stamps it and saves. */
    method EditListName(listId: Id, newName: string, now: Timestamp)
      modifies this
      ensures current == old(current)
      ensures FindList(old(lists), listId).None? || Trim(newName) == []
              || NameTakenByOther(old(lists), listId, newName) ==>
        lists == old(lists) && stored == old(stored)
      ensures FindList(old(lists), listId).Some? && Trim(newName) != []
              && !NameTakenByOther(old(lists), listId, newName) ==>
        var i := FindList(old(lists), listId).value;
        lists == old(lists)[i := old(lists)[i].(name := Trim(newName), updatedAt := now)]
        && stored == lists
      ensures NamesUnique(old(lists)) && ListIdsUnique(old(lists)) ==> NamesUnique(lists)
      ensures ListIdsUnique(old(lists)) ==> ListIdsUnique(lists)
      ensures old(CurrentExists()) ==> CurrentExists()
    {
      var found := FindList(lists, listId);
      if found.None? {
        return;
      }
      if Trim(newName) == [] {
        return;
      }
      var existing := FindNameClash(lists, newName, Some(listId));
      EditListCheck(lists, listId, newName);
      if existing.Some? {
        return;
      }
      var i := found.value;
      if NamesUnique(lists) && ListIdsUnique(lists) {
        RenameKeepsUnique(lists, i, newName, now);
      }
      var renamed := lists[i].(name := Trim(newName), updatedAt := now);
      if HasCurrent() {
        FindListAfterUpdate(lists, i, renamed, current.value);
      }
      lists := lists[i := renamed];
      Save();
    }

    /** `deleteList`: drops every list with the id, saves, and returns to the
        dashboard when that was the current list. */
    method DeleteList(listId: Id)
      modifies this
      ensures lists == WithoutList(old(lists), listId) && stored == lists
      ensures current == if old(current) == Some(listId) then None else old(current)
      ensures forall l :: l in lists <==> l in old(lists) && l.id != listId
      ensures NamesUnique(old(lists)) ==> NamesUnique(lists)
      ensures ListIdsUnique(old(lists)) ==> ListIdsUnique(lists)
      ensures old(CurrentExists()) ==> CurrentExists()
    {
      WithoutListSpec(lists, listId);
      ghost var before := lists;
      lists := WithoutList(lists, listId);
      Save();
      if current == Some(listId) {
        ShowDashboard();
      }
      if HasCurrent() && FindList(before, current.value).Some? {
        var l := before[FindList(before, current.value).value];
        assert l in lists;
      }
    }

    /** `updateListMetadata`: stamps the first list with the id and saves;
        nothing happens when there is none. */
    method UpdateListMetadata(listId: Id, now: Timestamp)
      modifies this
      ensures current == old(current)
      ensures FindList(old(lists), listId).None? ==> lists == old(lists) && stored == old(stored)
      ensures FindList(old(lists), listId).Some? ==>
        var i := FindList(old(lists), listId).value;
        lists == old(lists)[i := old(lists)[i].(updatedAt := now)] && stored == lists
      ensures |lists| == |old(lists)|
      ensures FindList(lists, listId) == FindList(old(lists), listId)
      ensures old(HasCurrent()) ==> FindList(lists, current.value) == FindList(old(lists), current.value)
    {
      var found := FindList(lists, listId);
      if found.Some? {
        var i := found.value;
        FindListAfterUpdate(lists, i, lists[i].(updatedAt := now), listId);
        if HasCurrent() {
          FindListAfterUpdate(lists, i, lists[i].(updatedAt := now), current.value);
        }
        lists := lists[i := lists[i].(updatedAt := now)];
        Save();
      }
    }

    /** `addTask`: ignores the call on the dashboard, for an empty trimmed text
        or when the current list is gone; otherwise appends a new task to the
        current list, stamps the list and saves. */
    method AddTask(taskText: string, taskId: Id, createdAt: Timestamp, now: Timestamp)
      modifies this
      ensures current == old(current)
      ensures !old(HasCurrent()) || Trim(taskText) == [] || FindList(old(lists), old(current).value).None? ==>
        lists == old(lists) && stored == old(stored)
      ensures old(HasCurrent()) && Trim(taskText) != [] && FindList(old(lists), old(current).value).Some? ==>
        var i := FindList(old(lists), old(current).value).value;
        var l := old(lists)[i];
        lists == old(lists)[i := l.(tasks := l.tasks + [CreateTaskObject(taskText, taskId, createdAt)],
                                    updatedAt := now)]
        && stored == lists
      ensures old(HasCurrent()) && Trim(taskText) != [] && FindList(old(lists), old(current).value).Some? ==>
        var i := FindList(old(lists), old(current).value).value;
        var ts := lists[i].tasks;
        && |ts| == |old(lists)[i].tasks| + 1
        && ts[..|ts| - 1] == old(lists)[i].tasks
        && ts[|ts| - 1].text == Trim(taskText) && !ts[|ts| - 1].completed
        && forall j :: 0 <= j < |lists| && j != i ==> lists[j] == old(lists)[j]
      ensures |lists| == |old(lists)|
      ensures old(HasCurrent()) ==> FindList(lists, current.value) == FindList(old(lists), current.value)
      ensures old(CurrentExists()) ==> CurrentExists()
    {
      if !HasCurrent() {
        return;
      }
      if Trim(taskText) == [] {
        return;
      }
      var found := FindList(lists, current.value);
      if found.None? {
        return;
      }
      var i := found.value;
      var newTask := CreateTaskObject(taskText, taskId, createdAt);
      var l := lists[i];
      FindListAfterUpdate(lists, i, l.(tasks := l.tasks + [newTask]), current.value);
      lists := lists[i := l.(tasks := l.tasks + [newTask])];
      UpdateListMetadata(current.value, now);
      Save();
    }

    /** `toggleTaskCompletion`: flips the first task with the id in the current
        list, stamps the list and saves; an unknown task changes nothing. */
    method ToggleTask(taskId: Id, now: Timestamp)
      modifies this
      ensures current == old(current)
      ensures !old(HasCurrent()) || FindList(old(lists), old(current).value).None?
              || FindTask(old(lists)[FindList(old(lists), old(current).value).value].tasks, taskId).None? ==>
        lists == old(lists) && stored == old(stored)
      ensures old(HasCurrent()) && FindList(old(lists), old(current).value).Some?
              && FindTask(old(lists)[FindList(old(lists), old(current).value).value].tasks, taskId).Some? ==>
        var i := FindList(old(lists), old(current).value).value;
        var l := old(lists)[i];
        lists == old(lists)[i := l.(tasks := Toggled(l.tasks, taskId), updatedAt := now)]
        && stored == lists
      ensures |lists| == |old(lists)|
      ensures old(HasCurrent()) ==> FindList(lists, current.value) == FindList(old(lists), current.value)
      ensures old(CurrentExists()) ==> CurrentExists()
    {
      if !HasCurrent() {
        return;
      }
      var found := FindList(lists, current.value);
      if found.None? {
        return;
      }
      var i := found.value;
      var task := FindTask(lists[i].tasks, taskId);
      if task.Some? {
        var l := lists[i];
        var k := task.value;
        var flipped := l.(tasks := l.tasks[k := l.tasks[k].(completed := !l.tasks[k].completed)]);
        assert flipped.tasks == Toggled(l.tasks, taskId);
        FindListAfterUpdate(lists, i, flipped, current.value);
        lists := lists[i := flipped];
        UpdateListMetadata(current.value, now);
        Save();
      }
    }

    /** `deleteTask`: drops every task with the id from the current list, then
        stamps the list and saves, whether or not a task was dropped. */
    method DeleteTask(taskId: Id, now: Timestamp)
      modifies this
      ensures current == old(current)
      ensures !old(HasCurrent()) || FindList(old(lists), old(current).value).None? ==>
        lists == old(lists) && stored == old(stored)
      ensures old(HasCurrent()) && FindList(old(lists), old(current).value).Some? ==>
        var i := FindList(old(lists), old(current).value).value;
        var l := old(lists)[i];
        lists == old(lists)[i := l.(tasks := WithoutTask(l.tasks, taskId), updatedAt := now)]
        && stored == lists
      ensures |lists| == |old(lists)|
      ensures old(HasCurrent()) ==> FindList(lists, current.value) == FindList(old(lists), current.value)
      ensures old(CurrentExists()) ==> CurrentExists()
    {
      if !HasCurrent() {
        return;
      }
      var found := FindList(lists, current.value);
      if found.None? {
        return;
      }
      var i := found.value;
      var l := lists[i];
      var filtered := l.(tasks := WithoutTask(l.tasks, taskId));
      FindListAfterUpdate(lists, i, filtered, current.value);
      lists := lists[i := filtered];
      UpdateListMetadata(current.value, now);
      Save();
    }

    /** `reorderTasks`: ignores the call on the dashboard, when the current list
        is gone, or when `fromIndex` names no task; otherwise takes the task out
        at `fromIndex`, puts it back in at `toIndex`, stamps the list and saves. */
    method ReorderTasks(fromIndex: int, toIndex: int, now: Timestamp)
      modifies this
      ensures current == old(current)
      ensures !old(HasCurrent()) || FindList(old(lists), old(current).value).None?
              || !(0 <= fromIndex < |old(lists)[FindList(old(lists), old(current).value).value].tasks|) ==>
        lists == old(lists) && stored == old(stored)
      ensures old(HasCurrent()) && FindList(old(lists), old(current).value).Some?
              && 0 <= fromIndex < |old(lists)[FindList(old(lists), old(current).value).value].tasks| ==>
        var i := FindList(old(lists), old(current).value).value;
        var l := old(lists)[i];
        lists == old(lists)[i := l.(tasks := Moved(l.tasks, fromIndex, toIndex), updatedAt := now)]
        && stored == lists
      ensures |lists| == |old(lists)|
      ensures old(HasCurrent()) ==> FindList(lists, current.value) == FindList(old(lists), current.value)
      ensures old(CurrentExists()) ==> CurrentExists()
    {
      if !HasCurrent() {
        return;
      }
      var found := FindList(lists, current.value);
      if found.None? {
        return;
      }
      var i := found.value;
      var l := lists[i];
      if !(0 <= fromIndex < |l.tasks|) {
        return;
      }
      var taskToMove := l.tasks[fromIndex];
      var tasks := l.tasks[..fromIndex] + l.tasks[fromIndex + 1..];
      var k := SpliceStart(toIndex, |tasks|);
      tasks := tasks[..k] + [taskToMove] + tasks[k..];
      var reordered := l.(tasks := tasks);
      FindListAfterUpdate(lists, i, reordered, current.value);
      lists := lists[i := reordered];
      UpdateListMetadata(current.value, now);
      Save();
    }

    /** `showDashboard`: no list is current. */
    method ShowDashboard()
      modifies this
      ensures current == None
      ensures lists == old(lists) && stored == old(stored)
    {
      current := None;
    }

    /** `showListView`: makes an existing list current; an unknown id changes
        nothing. */
    method ShowListView(listId: Id)
      modifies this
      ensures current == if FindList(lists, listId).Some? then Some(listId) else old(current)
      ensures lists == old(lists) && stored == old(stored)
      ensures old(CurrentExists()) ==> CurrentExists()
    {
      if FindList(lists, listId).Some? {
        current := Some(listId);
      }
    }

    /** The `visibilitychange` handler: when the page becomes visible and
        storage (read as `loaded`) differs from `lists`, adopts it wholesale and
        falls back to the dashboard if the current list has vanished. */
    method OnVisible(hidden: bool, loaded: seq<TodoList>)
      modifies this
      ensures stored == old(stored)
      ensures hidden ==> lists == old(lists) && current == old(current)
      ensures !hidden ==> lists == loaded
      ensures current == if !hidden && loaded != old(lists) && old(HasCurrent())
                            && FindList(loaded, old(current).value).None?
                         then None else old(current)
      ensures !hidden && loaded != old(lists) ==> CurrentExists()
      ensures old(CurrentExists()) ==> CurrentExists()
      ensures !hidden && loaded == old(stored) && old(stored) == old(lists) ==>
        lists == old(lists) && current == old(current)
    {
      if hidden {
        return;
      }
      if loaded != lists {
        lists := loaded;
        if HasCurrent() {
          if FindList(lists, current.value).None? {
            ShowDashboard();
          }
        }
      }
    }
  }

  /** One session: create "Groceries", add "Milk" and "Eggs", complete "Milk",
      delete "Eggs"; one list remains, holding the completed "Milk" task only. */
  method GroceriesScenario(listId: Id, milkId: Id, eggsId: Id)
    requires listId != "" && milkId != eggsId
  {
    var store := new ListStore([]);
    OpenGroceries(store, listId);
    AddMilkAndEggs(store, listId, milkId, eggsId);
    CompleteMilkDropEggs(store, listId, milkId, eggsId);
    assert |store.lists| == 1;
    assert store.lists[0] == TodoList(listId, "Groceries", [Task(milkId, "Milk", true, 2)], 1, 5);
    assert store.stored == store.lists && store.current == Some(listId);
  }

  /** Creating "Groceries" on an empty store and opening it. */
  method OpenGroceries(store: ListStore, listId: Id)
    requires store.lists == [] && store.current == None && listId != ""
    modifies store
    ensures store.lists == [TodoList(listId, "Groceries", [], 1, 1)]
    ensures store.current == Some(listId)
  {
    assert Trim("Groceries") == "Groceries" by { TrimOfTrimmed("Groceries"); }
    store.AddList("Groceries", listId, 1, 1);
    assert |store.lists| == 1 && store.lists[0] == TodoList(listId, "Groceries", [], 1, 1);
    assert FindList(store.lists, listId) == Some(0);
    store.ShowListView(listId);
  }

  /** Adding "Milk" and then "Eggs" to the open list. */
  method AddMilkAndEggs(store: ListStore, listId: Id, milkId: Id, eggsId: Id)
    requires store.lists == [TodoList(listId, "Groceries", [], 1, 1)]
    requires store.current == Some(listId) && listId != ""
    modifies store
    ensures store.lists == [TodoList(listId, "Groceries",
                                     [Task(milkId, "Milk", false, 2), Task(eggsId, "Eggs", false, 3)], 1, 3)]
    ensures store.current == Some(listId)
  {
    var groceries := store.lists[0];
    assert FindList(store.lists, listId) == Some(0);
    assert Trim("Milk") == "Milk" by { TrimOfTrimmed("Milk"); }
    store.AddTask("Milk", milkId, 2, 2);
    var milk := Task(milkId, "Milk", false, 2);
    assert CreateTaskObject("Milk", milkId, 2) == milk;
    assert |store.lists| == 1 && store.lists[0] == groceries.(tasks := [milk], updatedAt := 2);
    assert FindList(store.lists, listId) == Some(0);
    assert Trim("Eggs") == "Eggs" by { TrimOfTrimmed("Eggs"); }
    store.AddTask("Eggs", eggsId, 3, 3);
    var eggs := Task(eggsId, "Eggs", false, 3);
    assert CreateTaskObject("Eggs", eggsId, 3) == eggs;
    assert |store.lists| == 1 && store.lists[0].tasks == [milk] + [eggs];
    assert store.lists[0] == groceries.(tasks := [milk, eggs], updatedAt := 3);
  }

  /** Completing "Milk" and deleting "Eggs". */
  method CompleteMilkDropEggs(store: ListStore, listId: Id, milkId: Id, eggsId: Id)
    requires store.lists == [TodoList(listId, "Groceries",
                                      [Task(milkId, "Milk", false, 2), Task(eggsId, "Eggs", false, 3)], 1, 3)]
    requires store.current == Some(listId) && listId != "" && milkId != eggsId
    modifies store
    ensures store.lists == [TodoList(listId, "Groceries", [Task(milkId, "Milk", true, 2)], 1, 5)]
    ensures store.stored == store.lists && store.current == Some(listId)
  {
    var milk := Task(milkId, "Milk", false, 2);
    var eggs := Task(eggsId, "Eggs", false, 3);
    var groceries := store.lists[0];
    assert FindList(store.lists, listId) == Some(0);
    assert FindTask([milk, eggs], milkId) == Some(0);
    store.ToggleTask(milkId, 4);
    var done := milk.(completed := true);
    assert |store.lists| == 1 && store.lists[0] == groceries.(tasks := [done, eggs], updatedAt := 4);
    assert FindList(store.lists, listId) == Some(0);
    store.DeleteTask(eggsId, 5);
    assert [done, eggs][1..] == [eggs] && [eggs][1..] == [];
    assert WithoutTask([done, eggs], eggsId) == [done] + WithoutTask([eggs], eggsId);
    assert WithoutTask([eggs], eggsId) == [];
    assert |store.lists| == 1 && store.lists[0] == groceries.(tasks := [done], updatedAt := 5);
  }

  /** "Groceries" and "GROCERIES" collide. */
  lemma GroceriesInCapitals()
    ensures SameName("Groceries", "GROCERIES")
  {
    var a, b := "Groceries", "GROCERIES";
    forall i | 0 <= i < |a|
      ensures CaseVariant(a[i], b[i])
    {
    }
    CaseVariantsCollide(a, b);
  }

  /** A second list whose name differs only in case is rejected: adding
      "GROCERIES" after "Groceries" leaves one list. */
  method RejectCaseVariant(firstId: Id, secondId: Id)
  {
    var store := new ListStore([]);
    assert Trim("Groceries") == "Groceries" by { TrimOfTrimmed("Groceries"); }
    store.AddList("Groceries", firstId, 1, 1);
    assert |store.lists| == 1 && store.lists[0].name == "Groceries";
    assert Trim("GROCERIES") == "GROCERIES" by { TrimOfTrimmed("GROCERIES"); }
    assert NameTaken(store.lists, "GROCERIES") by {
      GroceriesInCapitals();
      assert SameName(store.lists[0].name, Trim("GROCERIES"));
    }
    store.AddList("GROCERIES", secondId, 2, 2);
    assert |store.lists| == 1 && store.lists[0].name == "Groceries";
  }
}
