/** The records the store keeps, the lookups it performs on them, and the
    invariants it is meant to keep (todo-app/app.js). */
module Records {
  import opened Options
  import opened Text
  import opened Sequences

  /** An opaque identifier produced by `generateId`. */
  type Id = string

  /** A clock reading; the source formats it as an ISO-8601 string. */
  type Timestamp = nat

  datatype Task = Task(id: Id, text: string, completed: bool, createdAt: Timestamp)

  datatype TodoList = TodoList(
    id: Id, name: string, tasks: seq<Task>, createdAt: Timestamp, updatedAt: Timestamp)

  /** `createListObject(name)`: the id and both clock readings are supplied by
      the caller. A new list is empty and its name carries no surrounding
      whitespace. */
  function CreateListObject(name: string, id: Id, createdAt: Timestamp, updatedAt: Timestamp): (l: TodoList)
    ensures l.id == id && l.tasks == [] && l.createdAt == createdAt && l.updatedAt == updatedAt
    ensures l.name == Trim(name)
    ensures l.name == [] <==> forall i :: 0 <= i < |name| ==> IsTrimmable(name[i])
    ensures l.name != [] ==> !IsTrimmable(l.name[0]) && !IsTrimmable(l.name[|l.name| - 1])
  {
    TodoList(id, Trim(name), [], createdAt, updatedAt)
  }

  /** `createTaskObject(text)`: a new task is not completed and its text carries
      no surrounding whitespace. */
  function CreateTaskObject(text: string, id: Id, createdAt: Timestamp): (t: Task)
    ensures t.id == id && !t.completed && t.createdAt == createdAt
    ensures t.text == Trim(text)
    ensures t.text == [] <==> forall i :: 0 <= i < |text| ==> IsTrimmable(text[i])
    ensures t.text != [] ==> !IsTrimmable(t.text[0]) && !IsTrimmable(t.text[|t.text| - 1])
  {
    Task(id, Trim(text), false, createdAt)
  }

  // ----- lookups: `lists.find(...)` and `list.tasks.find(...)` -----

  /** Index of the first element whose id is `id` (`s.find(x => x.id === id)`). */
  function FindById<T>(s: seq<T>, idOf: T -> Id, id: Id): (r: Option<nat>)
    ensures r.Some? ==> r.value < |s| && idOf(s[r.value]) == id
    ensures r.Some? ==> forall j :: 0 <= j < r.value ==> idOf(s[j]) != id
    ensures r.None? <==> forall j :: 0 <= j < |s| ==> idOf(s[j]) != id
  {
    if s == [] then None
    else if idOf(s[0]) == id then Some(0)
    else match FindById(s[1..], idOf, id)
      case None => None
      case Some(i) => Some(i + 1)
  }

  /** Index of the first list with the given id (`lists.find(l => l.id === id)`). */
  function FindList(ls: seq<TodoList>, id: Id): (r: Option<nat>)
    ensures r.Some? ==> r.value < |ls| && ls[r.value].id == id
    ensures r.Some? ==> forall j :: 0 <= j < r.value ==> ls[j].id != id
    ensures r.None? <==> forall j :: 0 <= j < |ls| ==> ls[j].id != id
  {
    FindById(ls, (l: TodoList) => l.id, id)
  }

  /** Index of the first task with the given id (`list.tasks.find(t => t.id === id)`). */
  function FindTask(ts: seq<Task>, id: Id): (r: Option<nat>)
    ensures r.Some? ==> r.value < |ts| && ts[r.value].id == id
    ensures r.Some? ==> forall j :: 0 <= j < r.value ==> ts[j].id != id
    ensures r.None? <==> forall j :: 0 <= j < |ts| ==> ts[j].id != id
  {
    FindById(ts, (t: Task) => t.id, id)
  }

  /** Index of the first list, other than those with id `skip`, whose name
      collides with the trimmed `name`: the duplicate checks of `addList`
      (no exclusion) and of `editListName` (excluding the renamed list). */
  function FindNameClash(ls: seq<TodoList>, name: string, skip: Option<Id>): (r: Option<nat>)
    ensures r.Some? ==> r.value < |ls| && SameName(ls[r.value].name, Trim(name))
                        && Some(ls[r.value].id) != skip
    ensures r.None? <==>
      forall j :: 0 <= j < |ls| && Some(ls[j].id) != skip ==> !SameName(ls[j].name, Trim(name))
  {
    if ls == [] then None
    else if Some(ls[0].id) != skip && SameName(ls[0].name, Trim(name)) then Some(0)
    else match FindNameClash(ls[1..], name, skip)
      case None => None
      case Some(i) => Some(i + 1)
  }

  /** Some list's name equals the trimmed `name` ignoring case. */
  predicate NameTaken(ls: seq<TodoList>, name: string) {
    exists j :: 0 <= j < |ls| && SameName(ls[j].name, Trim(name))
  }

  /** Some list with an id other than `id` has the trimmed `name` ignoring case. */
  predicate NameTakenByOther(ls: seq<TodoList>, id: Id, name: string) {
    exists j :: 0 <= j < |ls| && ls[j].id != id && SameName(ls[j].name, Trim(name))
  }

  // ----- invariants -----

  /** List names are pairwise distinct ignoring case. */
  predicate NamesUnique(ls: seq<TodoList>) {
    forall i, j :: 0 <= i < j < |ls| ==> !SameName(ls[i].name, ls[j].name)
  }

  /** List ids are pairwise distinct. */
  predicate ListIdsUnique(ls: seq<TodoList>) {
    forall i, j :: 0 <= i < j < |ls| ==> ls[i].id != ls[j].id
  }

  /** The id of each list is not `id`. */
  predicate IdFresh(ls: seq<TodoList>, id: Id) {
    forall j :: 0 <= j < |ls| ==> ls[j].id != id
  }

  // ----- the updates the store applies to one list -----

  /** `lists.filter(list => list.id !== id)`. */
  function WithoutList(ls: seq<TodoList>, id: Id): (r: seq<TodoList>)
    ensures |r| <= |ls|
    ensures forall l :: l in r ==> l.id != id
  {
    Filter(ls, (l: TodoList) => l.id != id)
  }

  /** `list.tasks.filter(task => task.id !== id)`. */
  function WithoutTask(ts: seq<Task>, id: Id): (r: seq<Task>)
    ensures |r| <= |ts|
    ensures forall t :: t in r ==> t.id != id
  {
    Filter(ts, (t: Task) => t.id != id)
  }

  /** The tasks after `task.completed = !task.completed` on the first task with
      the given id; unchanged when there is none. */
  function Toggled(ts: seq<Task>, id: Id): (r: seq<Task>)
    ensures |r| == |ts|
    ensures forall k :: 0 <= k < |ts| ==> r[k].id == ts[k].id
    ensures FindTask(ts, id).None? ==> r == ts
  {
    match FindTask(ts, id)
    case None => ts
    case Some(k) => ts[k := ts[k].(completed := !ts[k].completed)]
  }

  // ----- lemmas -----

  /** A lookup by id only depends on the ids: the contract of `FindList`
      determines its result from them. */
  lemma FindListByIds(a: seq<TodoList>, b: seq<TodoList>, id: Id)
    requires |a| == |b| && forall k :: 0 <= k < |a| ==> a[k].id == b[k].id
    ensures FindList(a, id) == FindList(b, id)
  {
  }

  /** A lookup by id only depends on the ids. */
  lemma FindTaskByIds(a: seq<Task>, b: seq<Task>, id: Id)
    requires |a| == |b| && forall k :: 0 <= k < |a| ==> a[k].id == b[k].id
    ensures FindTask(a, id) == FindTask(b, id)
  {
  }

  /** Replacing one list by a list with the same id leaves every lookup by id
      where it was. */
  lemma FindListAfterUpdate(ls: seq<TodoList>, i: nat, l: TodoList, id: Id)
    requires i < |ls| && l.id == ls[i].id
    ensures FindList(ls[i := l], id) == FindList(ls, id)
  {
    FindListByIds(ls[i := l], ls, id);
  }

  /** The duplicate check of `addList` finds a clash exactly when the name is taken. */
  lemma AddListCheck(ls: seq<TodoList>, name: string)
    ensures FindNameClash(ls, name, None).Some? <==> NameTaken(ls, name)
  {
  }

  /** The duplicate check of `editListName` finds a clash exactly when another
      list holds the name. */
  lemma EditListCheck(ls: seq<TodoList>, id: Id, name: string)
    ensures FindNameClash(ls, name, Some(id)).Some? <==> NameTakenByOther(ls, id, name)
  {
  }

  /** Appending a list whose name is not taken keeps names unique; appending a
      list with a fresh id keeps ids unique. */
  lemma AppendKeepsUnique(ls: seq<TodoList>, l: TodoList)
    ensures NamesUnique(ls) && !NameTaken(ls, l.name) && l.name == Trim(l.name) ==>
      NamesUnique(ls + [l])
    ensures ListIdsUnique(ls) && IdFresh(ls, l.id) ==> ListIdsUnique(ls + [l])
  {
  }

  /** Renaming the list at `i` to a name no other list holds keeps names unique,
      provided ids are unique: the duplicate check skips every list that shares
      the renamed list's id. */
  lemma RenameKeepsUnique(ls: seq<TodoList>, i: nat, name: string, now: Timestamp)
    requires i < |ls| && NamesUnique(ls) && ListIdsUnique(ls)
    requires !NameTakenByOther(ls, ls[i].id, name)
    ensures NamesUnique(ls[i := ls[i].(name := Trim(name), updatedAt := now)])
    ensures ListIdsUnique(ls[i := ls[i].(name := Trim(name), updatedAt := now)])
  {
    var r := ls[i := ls[i].(name := Trim(name), updatedAt := now)];
    forall a, b | 0 <= a < b < |r| ensures !SameName(r[a].name, r[b].name) {
      if a == i {
        assert ls[b].id != ls[i].id;
        assert Trim(Trim(name)) == Trim(name) by { TrimIdempotent(name); }
      } else if b == i {
        assert ls[a].id != ls[i].id;
        assert Trim(Trim(name)) == Trim(name) by { TrimIdempotent(name); }
      }
    }
  }

  /** Without unique ids the rename can break name uniqueness: with two lists
      sharing id "a", renaming "a" to the other list's name in upper case
      passes the duplicate check and leaves two colliding names. */
  lemma RenameNeedsUniqueIds()
    ensures var ls := [TodoList("a", "x", [], 0, 0), TodoList("a", "y", [], 0, 0)];
            && NamesUnique(ls) && !ListIdsUnique(ls)
            && FindList(ls, "a") == Some(0)
            && !NameTakenByOther(ls, "a", "Y")
            && !NamesUnique(ls[0 := ls[0].(name := Trim("Y"), updatedAt := 1)])
  {
    var ls := [TodoList("a", "x", [], 0, 0), TodoList("a", "y", [], 0, 0)];
    TrimOfTrimmed("Y");
    assert Lower("x") == "x" && Lower("y") == "y" && Lower("Y") == "y";
    assert !SameName(ls[0].name, ls[1].name);
    var r := ls[0 := ls[0].(name := Trim("Y"), updatedAt := 1)];
    assert r[0].name == "Y" && r[1].name == "y";
    assert SameName(r[0].name, r[1].name);
  }

  /** A name that some list holds in other ASCII cases is taken, so `addList`
      rejects it. */
  lemma CaseVariantIsTaken(ls: seq<TodoList>, j: nat, name: string)
    requires j < |ls| && |ls[j].name| == |Trim(name)|
    requires forall i :: 0 <= i < |Trim(name)| ==> CaseVariant(ls[j].name[i], Trim(name)[i])
    ensures NameTaken(ls, name)
  {
    CaseVariantsCollide(ls[j].name, Trim(name));
  }

  /** Renaming a list to its own name in another case passes the duplicate
      check of `editListName`, though `addList` would reject that name. */
  lemma RenameToOwnNameInOtherCase(ls: seq<TodoList>, i: nat, name: string)
    requires i < |ls| && NamesUnique(ls)
    requires SameName(Trim(name), ls[i].name)
    ensures !NameTakenByOther(ls, ls[i].id, name)
    ensures NameTaken(ls, name)
  {
    forall j | 0 <= j < |ls| && ls[j].id != ls[i].id
      ensures !SameName(ls[j].name, Trim(name))
    {
      assert j != i;
      if j < i {
        assert !SameName(ls[j].name, ls[i].name);
      } else {
        assert !SameName(ls[i].name, ls[j].name);
      }
    }
  }

  /** A subsequence of lists with unique names (ids) has unique names (ids). */
  lemma {:induction false} SubsequenceKeepsUnique(a: seq<TodoList>, b: seq<TodoList>)
    requires Subsequence(a, b)
    ensures NamesUnique(b) ==> NamesUnique(a)
    ensures ListIdsUnique(b) ==> ListIdsUnique(a)
    decreases |b|
  {
    if a != [] {
      if a[0] == b[0] && Subsequence(a[1..], b[1..]) {
        SubsequenceKeepsUnique(a[1..], b[1..]);
        SubsequenceMembers(a[1..], b[1..]);
        forall k | 1 <= k < |a|
          ensures (NamesUnique(b) ==> !SameName(a[0].name, a[k].name))
          ensures (ListIdsUnique(b) ==> a[0].id != a[k].id)
        {
          assert a[k] in a[1..];
          var j :| 0 <= j < |b[1..]| && b[1..][j] == a[k];
          assert b[j + 1] == a[k];
        }
        if NamesUnique(b) {
          forall p, q | 0 <= p < q < |a| ensures !SameName(a[p].name, a[q].name) {
            if p > 0 {
              assert a[p] == a[1..][p - 1] && a[q] == a[1..][q - 1];
            }
          }
        }
        if ListIdsUnique(b) {
          forall p, q | 0 <= p < q < |a| ensures a[p].id != a[q].id {
            if p > 0 {
              assert a[p] == a[1..][p - 1] && a[q] == a[1..][q - 1];
            }
          }
        }
      } else {
        SubsequenceKeepsUnique(a, b[1..]);
      }
    }
  }

  /** `deleteList` keeps every other list, in order, and none with the id;
      it keeps names and ids unique. */
  lemma WithoutListSpec(ls: seq<TodoList>, id: Id)
    ensures Subsequence(WithoutList(ls, id), ls)
    ensures forall l :: l in WithoutList(ls, id) <==> l in ls && l.id != id
    ensures forall l :: multiset(WithoutList(ls, id))[l] == if l.id == id then 0 else multiset(ls)[l]
    ensures IdFresh(ls, id) ==> WithoutList(ls, id) == ls
    ensures NamesUnique(ls) ==> NamesUnique(WithoutList(ls, id))
    ensures ListIdsUnique(ls) ==> ListIdsUnique(WithoutList(ls, id))
  {
    FilterSpec(ls, (l: TodoList) => l.id != id);
    if IdFresh(ls, id) {
      FilterKeepAll(ls, (l: TodoList) => l.id != id);
    }
    SubsequenceKeepsUnique(WithoutList(ls, id), ls);
  }

  /** `deleteTask` keeps every other task, in order, and none with the id. */
  lemma WithoutTaskSpec(ts: seq<Task>, id: Id)
    ensures Subsequence(WithoutTask(ts, id), ts)
    ensures forall t :: t in WithoutTask(ts, id) <==> t in ts && t.id != id
    ensures forall t :: multiset(WithoutTask(ts, id))[t] == if t.id == id then 0 else multiset(ts)[t]
    ensures FindTask(ts, id).None? ==> WithoutTask(ts, id) == ts
  {
    FilterSpec(ts, (t: Task) => t.id != id);
    if FindTask(ts, id).None? {
      FilterKeepAll(ts, (t: Task) => t.id != id);
    }
  }

  /** Toggling flips `completed` on the first task with the id and on nothing
      else; ids, texts and timestamps stay as they were. */
  lemma ToggledSpec(ts: seq<Task>, id: Id)
    ensures |Toggled(ts, id)| == |ts|
    ensures forall k :: 0 <= k < |ts| ==>
      var t := Toggled(ts, id)[k];
      t.id == ts[k].id && t.text == ts[k].text && t.createdAt == ts[k].createdAt
      && t.completed == (if FindTask(ts, id) == Some(k) then !ts[k].completed else ts[k].completed)
  {
  }

  /** Toggling the same task twice restores the original flags. */
  lemma ToggleTwice(ts: seq<Task>, id: Id)
    ensures Toggled(Toggled(ts, id), id) == ts
  {
    match FindTask(ts, id)
    case None =>
    case Some(k) =>
      var once := Toggled(ts, id);
      FindTaskByIds(once, ts, id);
  }
}
