/** The task records of script.js and the five operations that change the
    task list, each as a function from the old list to the new one. The
    store class in store.dfy runs these; the lemmas here state what they
    promise. */
module Tasks {
  import opened Wrappers
  import opened Text
  import opened Seqs

  /** One to-do entry. `createdAt` is the millisecond clock reading taken
      when the entry was added. */
  datatype Task = Task(id: string, text: string, completed: bool, createdAt: int)

  predicate IsActive(t: Task) { !t.completed }

  predicate IsCompleted(t: Task) { t.completed }

  /** Stored text is trimmed and never empty. */
  predicate WellFormed(s: seq<Task>) {
    forall k :: 0 <= k < |s| ==> s[k].text != [] && Trim(s[k].text) == s[k].text
  }

  /** No two tasks share an id. Ids are random strings, so this is an
      assumption about the id source, not something the store enforces. */
  predicate UniqueIds(s: seq<Task>) {
    forall i, j :: 0 <= i < j < |s| ==> s[i].id != s[j].id
  }

  /** Position of the first task with id `id`, the one `Array.prototype.find`
      returns; None when no task has that id. */
  function FindIndex(s: seq<Task>, id: string): (r: Option<nat>)
    ensures r.None? <==> forall k :: 0 <= k < |s| ==> s[k].id != id
    ensures r.Some? ==>
      r.value < |s| && s[r.value].id == id && forall k :: 0 <= k < r.value ==> s[k].id != id
  {
    if s == [] then None
    else if s[0].id == id then Some(0)
    else
      match FindIndex(s[1..], id)
      case None => None
      case Some(i) => Some(i + 1)
  }

  /** Whether some task is completed (`tasks.some(t => t.completed)`). */
  predicate AnyCompleted(s: seq<Task>) {
    exists k :: 0 <= k < |s| && s[k].completed
  }

  // ----- The operations -----

  /** addTask: append a new active task holding the trimmed text, unless
      the text is blank. */
  function Added(s: seq<Task>, text: string, id: string, now: int): seq<Task> {
    var trimmed := Trim(text);
    if trimmed == [] then s else s + [Task(id, trimmed, false, now)]
  }

  /** toggleTask: flip `completed` on the first task with this id. */
  function Toggled(s: seq<Task>, id: string): seq<Task> {
    match FindIndex(s, id)
    case None => s
    case Some(i) => s[i := s[i].(completed := !s[i].completed)]
  }

  /** updateTask: the first task with this id takes the trimmed new text,
      unless that text is blank. */
  function Updated(s: seq<Task>, id: string, newText: string): seq<Task> {
    match FindIndex(s, id)
    case None => s
    case Some(i) =>
      var trimmed := Trim(newText);
      if trimmed == [] then s else s[i := s[i].(text := trimmed)]
  }

  /** removeTask: keep the tasks whose id differs. */
  function Removed(s: seq<Task>, id: string): seq<Task> {
    Filter(s, (t: Task) => t.id != id)
  }

  /** clearCompleted: when some task is completed, keep the others. */
  function Cleared(s: seq<Task>): seq<Task> {
    if AnyCompleted(s) then Filter(s, IsActive) else s
  }

  // ----- addTask -----

  /** Adding is a no-op exactly when the input is all whitespace. */
  lemma AddedNoopIffBlank(s: seq<Task>, text: string, id: string, now: int)
    ensures Added(s, text, id, now) == s <==> forall k :: 0 <= k < |text| ==> IsSpace(text[k])
  {
    TrimBlank(text);
    if Trim(text) != [] {
      assert |Added(s, text, id, now)| == |s| + 1;
    }
  }

  /** A non-blank add appends exactly one task at the end: it is active,
      holds the trimmed input, carries the given id and clock reading, and
      every earlier task is untouched. */
  lemma AddedAppendsOne(s: seq<Task>, text: string, id: string, now: int)
    requires exists k :: 0 <= k < |text| && !IsSpace(text[k])
    ensures var r := Added(s, text, id, now);
      |r| == |s| + 1 && r[..|s|] == s
      && r[|s|] == Task(id, Trim(text), false, now)
      && r[|s|].text != [] && |r[|s|].text| <= |text|
  {
    TrimBlank(text);
    assert (s + [Task(id, Trim(text), false, now)])[..|s|] == s;
  }

  lemma AddedWellFormed(s: seq<Task>, text: string, id: string, now: int)
    requires WellFormed(s)
    ensures WellFormed(Added(s, text, id, now))
  {
    TrimIdempotent(text);
  }

  /** A fresh id keeps ids unique. */
  lemma AddedUniqueIds(s: seq<Task>, text: string, id: string, now: int)
    requires UniqueIds(s)
    requires forall k :: 0 <= k < |s| ==> s[k].id != id
    ensures UniqueIds(Added(s, text, id, now))
  {
  }

  /** The new task joins the active tasks, at the end. */
  lemma AddedIsActive(s: seq<Task>, text: string, id: string, now: int)
    requires Trim(text) != []
    ensures Filter(Added(s, text, id, now), IsActive)
      == Filter(s, IsActive) + [Task(id, Trim(text), false, now)]
    ensures Filter(Added(s, text, id, now), IsCompleted) == Filter(s, IsCompleted)
  {
    var t := Task(id, Trim(text), false, now);
    assert Added(s, text, id, now) == s + [t];
    FilterAppend(s, [t], IsActive);
    FilterAppend(s, [t], IsCompleted);
    assert [t][1..] == [];
    assert Filter([t], IsActive) == [t];
    assert Filter([t], IsCompleted) == [];
  }

  // ----- toggleTask -----

  /** Changing fields other than the id leaves the first match where it was. */
  lemma FindIndexSameIds(a: seq<Task>, b: seq<Task>, id: string)
    requires |a| == |b|
    requires forall k :: 0 <= k < |a| ==> a[k].id == b[k].id
    ensures FindIndex(a, id) == FindIndex(b, id)
  {
    match FindIndex(a, id)
    case None =>
    case Some(i) =>
      assert b[i].id == id;
  }

  /** With no task of that id, toggling changes nothing; otherwise it
      flips the first such task and no other, keeping every other field. */
  lemma ToggledFlipsFirstMatch(s: seq<Task>, id: string)
    ensures var r := Toggled(s, id);
      |r| == |s|
      && ((forall k :: 0 <= k < |s| ==> s[k].id != id) ==> r == s)
      && forall i :: 0 <= i < |s| && s[i].id == id && (forall k :: 0 <= k < i ==> s[k].id != id) ==>
           r == s[i := Task(s[i].id, s[i].text, !s[i].completed, s[i].createdAt)]
  {
  }

  /** Toggling the same id twice restores the list. */
  lemma ToggledTwice(s: seq<Task>, id: string)
    ensures Toggled(Toggled(s, id), id) == s
  {
    var r := Toggled(s, id);
    FindIndexSameIds(s, r, id);
  }

  lemma ToggledPreserves(s: seq<Task>, id: string)
    ensures WellFormed(s) ==> WellFormed(Toggled(s, id))
    ensures UniqueIds(s) ==> UniqueIds(Toggled(s, id))
  {
    match FindIndex(s, id)
    case None =>
    case Some(i) =>
      var r := s[i := s[i].(completed := !s[i].completed)];
      assert Toggled(s, id) == r;
      assert forall k :: 0 <= k < |r| ==> r[k].id == s[k].id && r[k].text == s[k].text;
  }

  // ----- updateTask -----

  /** Blank new text or an unknown id leaves the list unchanged; otherwise
      the first task with the id takes the trimmed text and keeps its id,
      completed flag and creation time, and every other task is unchanged. */
  lemma UpdatedChangesFirstMatch(s: seq<Task>, id: string, newText: string)
    ensures var r := Updated(s, id, newText);
      |r| == |s|
      && ((forall k :: 0 <= k < |newText| ==> IsSpace(newText[k])) ==> r == s)
      && ((forall k :: 0 <= k < |s| ==> s[k].id != id) ==> r == s)
      && forall i :: 0 <= i < |s| && s[i].id == id && (forall k :: 0 <= k < i ==> s[k].id != id) && Trim(newText) != [] ==>
           r == s[i := Task(s[i].id, Trim(newText), s[i].completed, s[i].createdAt)]
  {
    TrimBlank(newText);
  }

  /** Repeating an update changes nothing more. */
  lemma UpdatedTwice(s: seq<Task>, id: string, newText: string)
    ensures Updated(Updated(s, id, newText), id, newText) == Updated(s, id, newText)
  {
    var r := Updated(s, id, newText);
    FindIndexSameIds(s, r, id);
  }

  lemma UpdatedPreserves(s: seq<Task>, id: string, newText: string)
    ensures WellFormed(s) ==> WellFormed(Updated(s, id, newText))
    ensures UniqueIds(s) ==> UniqueIds(Updated(s, id, newText))
  {
    match FindIndex(s, id)
    case None =>
    case Some(i) =>
      var trimmed := Trim(newText);
      if trimmed != [] {
        var r := s[i := s[i].(text := trimmed)];
        assert Updated(s, id, newText) == r;
        TrimIdempotent(newText);
        assert r[i].text != [] && Trim(r[i].text) == r[i].text;
        assert forall k :: 0 <= k < |r| && k != i ==> r[k] == s[k];
      }
  }

  // ----- removeTask -----

  /** Removal keeps exactly the tasks with another id, as often as they
      occur, and no task with that id survives. */
  lemma RemovedKeepsOthers(s: seq<Task>, id: string)
    ensures var r := Removed(s, id);
      (forall k :: 0 <= k < |r| ==> r[k].id != id)
      && (forall t: Task :: t.id != id ==> multiset(r)[t] == multiset(s)[t])
      && (forall t :: t in s && t.id != id ==> t in r)
  {
    var r := Removed(s, id);
    FilterMultiset(s, (t: Task) => t.id != id);
    forall k | 0 <= k < |r| ensures r[k].id != id {
      assert r[k] in r;
    }
    forall t | t in s && t.id != id ensures t in r {
      assert multiset(r)[t] == multiset(s)[t];
    }
  }

  /** Removal keeps order: removing from a concatenation removes from
      each part. */
  lemma RemovedAppend(a: seq<Task>, b: seq<Task>, id: string)
    ensures Removed(a + b, id) == Removed(a, id) + Removed(b, id)
  {
    FilterAppend(a, b, (t: Task) => t.id != id);
  }

  /** Removing an id no task has changes nothing. */
  lemma RemovedUnknown(s: seq<Task>, id: string)
    requires forall k :: 0 <= k < |s| ==> s[k].id != id
    ensures Removed(s, id) == s
  {
    FilterKeepsAll(s, (t: Task) => t.id != id);
  }

  /** When ids are unique, removing an existing id deletes exactly the one
      record holding it. */
  lemma RemovedUniqueDropsOne(s: seq<Task>, id: string, i: nat)
    requires UniqueIds(s)
    requires i < |s| && s[i].id == id
    ensures Removed(s, id) == s[..i] + s[i + 1..]
    ensures |Removed(s, id)| == |s| - 1
  {
    var front, back := s[..i], s[i + 1..];
    assert Removed(front, id) == front by {
      forall k | 0 <= k < |front| ensures front[k].id != id {
        assert front[k] == s[k];
      }
      RemovedUnknown(front, id);
    }
    assert Removed([s[i]] + back, id) == back by {
      forall k | 0 <= k < |back| ensures back[k].id != id {
        assert back[k] == s[i + 1 + k];
      }
      RemovedUnknown(back, id);
      RemovedAppend([s[i]], back, id);
      RemovedSingle(s[i], id);
    }
    assert front + ([s[i]] + back) == s;
    RemovedAppend(front, [s[i]] + back, id);
  }

  lemma RemovedSingle(t: Task, id: string)
    requires t.id == id
    ensures Removed([t], id) == []
  {
    assert [t][1..] == [];
  }

  /** Any filter keeps ids unique. */
  lemma {:induction false} FilterUniqueIds(s: seq<Task>, p: Task -> bool)
    requires UniqueIds(s)
    ensures UniqueIds(Filter(s, p))
  {
    if s != [] {
      FilterUniqueIds(s[1..], p);
      var rest := Filter(s[1..], p);
      forall k | 0 <= k < |rest| ensures rest[k].id != s[0].id {
        assert rest[k] in s[1..];
      }
    }
  }

  /** Any filter keeps texts trimmed and non-empty. */
  lemma FilterWellFormed(s: seq<Task>, p: Task -> bool)
    requires WellFormed(s)
    ensures WellFormed(Filter(s, p))
  {
    var r := Filter(s, p);
    forall k | 0 <= k < |r| ensures r[k].text != [] && Trim(r[k].text) == r[k].text {
      assert r[k] in s;
    }
  }

  lemma RemovedPreserves(s: seq<Task>, id: string)
    ensures WellFormed(s) ==> WellFormed(Removed(s, id))
    ensures UniqueIds(s) ==> UniqueIds(Removed(s, id))
  {
    if WellFormed(s) { FilterWellFormed(s, (t: Task) => t.id != id); }
    if UniqueIds(s) { FilterUniqueIds(s, (t: Task) => t.id != id); }
  }

  // ----- clearCompleted -----

  /** The guard in clearCompleted only skips work: the result is always
      exactly the active tasks, in their original order. */
  lemma ClearedIsActive(s: seq<Task>)
    ensures Cleared(s) == Filter(s, IsActive)
  {
    if !AnyCompleted(s) {
      FilterKeepsAll(s, IsActive);
    }
  }

  /** Clearing is a no-op exactly when no task is completed; otherwise it
      removes every completed task and nothing else. */
  lemma ClearedNoopIff(s: seq<Task>)
    ensures Cleared(s) == s <==> !AnyCompleted(s)
    ensures forall k :: 0 <= k < |Cleared(s)| ==> !Cleared(s)[k].completed
    ensures forall t: Task :: !t.completed ==> multiset(Cleared(s))[t] == multiset(s)[t]
  {
    ClearedIsActive(s);
    FilterMultiset(s, IsActive);
    var r := Cleared(s);
    forall k | 0 <= k < |r| ensures !r[k].completed {
      assert r[k] in r;
    }
  }

  /** Clearing twice is clearing once. */
  lemma ClearedIdempotent(s: seq<Task>)
    ensures Cleared(Cleared(s)) == Cleared(s)
  {
    ClearedIsActive(s);
    ClearedIsActive(Cleared(s));
    FilterIdempotent(s, IsActive);
  }

  lemma ClearedPreserves(s: seq<Task>)
    ensures WellFormed(s) ==> WellFormed(Cleared(s))
    ensures UniqueIds(s) ==> UniqueIds(Cleared(s))
  {
    if WellFormed(s) { FilterWellFormed(s, IsActive); }
    if UniqueIds(s) { FilterUniqueIds(s, IsActive); }
  }
}
