/** What `render` in script.js computes from the task list: the active and
    the completed tasks, each in creation order, their counts, the two
    empty-state indicators and whether "Clear completed" is disabled. */
module TaskView {
  import opened Seqs
  import opened Tasks

  /** The order `byCreated` asks for: creation time ascending. */
  predicate SortedByCreated(s: seq<Task>) {
    forall i, j :: 0 <= i < j < |s| ==> s[i].createdAt <= s[j].createdAt
  }

  /** The tasks of `s` created at time `c`, in the order `s` holds them. */
  function CreatedAt(s: seq<Task>, c: int): seq<Task> {
    Filter(s, (t: Task) => t.createdAt == c)
  }

  /** `x` placed in sorted `s` before the first task created no earlier. */
  function Insert(x: Task, s: seq<Task>): (r: seq<Task>)
    ensures |r| == |s| + 1
    ensures multiset(r) == multiset(s) + multiset{x}
    ensures r[0] == x || (s != [] && r[0] == s[0])
    ensures SortedByCreated(s) ==> SortedByCreated(r)
  {
    if s == [] then [x]
    else if x.createdAt <= s[0].createdAt then [x] + s
    else
      assert s == [s[0]] + s[1..];
      [s[0]] + Insert(x, s[1..])
  }

  /** `tasks.sort(byCreated)`: a permutation of `s` in creation order.
      The engine's sort is stable (ECMA-262 requires it since the 2019
      edition); stability is stated by SortedIsStable. */
  function SortByCreated(s: seq<Task>): (r: seq<Task>)
    ensures |r| == |s|
    ensures multiset(r) == multiset(s)
    ensures SortedByCreated(r)
  {
    if s == [] then []
    else
      assert s == [s[0]] + s[1..];
      Insert(s[0], SortByCreated(s[1..]))
  }

  /** Selecting by creation time from a list with one more task in front. */
  lemma CreatedAtCons(t: Task, s: seq<Task>, c: int)
    ensures CreatedAt([t] + s, c) == (if t.createdAt == c then [t] else []) + CreatedAt(s, c)
  {
    assert ([t] + s)[1..] == s;
  }

  /** Inserting keeps the order among tasks created at the same time: `x`
      lands before every task of sorted `s` with its own creation time. */
  lemma {:induction false} InsertCreatedAt(x: Task, s: seq<Task>, c: int)
    requires SortedByCreated(s)
    ensures CreatedAt(Insert(x, s), c) == (if x.createdAt == c then [x] else []) + CreatedAt(s, c)
  {
    if s == [] {
      CreatedAtCons(x, [], c);
      assert [x] + [] == [x];
    } else if x.createdAt <= s[0].createdAt {
      CreatedAtCons(x, s, c);
    } else {
      var rest := Insert(x, s[1..]);
      InsertCreatedAt(x, s[1..], c);
      CreatedAtCons(s[0], rest, c);
      CreatedAtCons(s[0], s[1..], c);
      assert [s[0]] + s[1..] == s;
      assert !(x.createdAt == c && s[0].createdAt == c);
    }
  }

  /** The sort is stable: tasks with equal creation times keep their
      relative order. */
  lemma {:induction false} SortedIsStable(s: seq<Task>, c: int)
    ensures CreatedAt(SortByCreated(s), c) == CreatedAt(s, c)
  {
    if s != [] {
      SortedIsStable(s[1..], c);
      InsertCreatedAt(s[0], SortByCreated(s[1..]), c);
      assert s == [s[0]] + s[1..];
    }
  }

  datatype View = View(
    active: seq<Task>,
    completed: seq<Task>,
    activeCount: nat,
    completedCount: nat,
    activeEmptyShown: bool,
    completedEmptyShown: bool,
    clearDisabled: bool)

  /** The data one call of `render` displays for the list `s`. */
  function Render(s: seq<Task>): View {
    var active := SortByCreated(Filter(s, IsActive));
    var completed := SortByCreated(Filter(s, IsCompleted));
    View(active, completed, |active|, |completed|,
         |active| == 0, |completed| == 0, |completed| == 0)
  }

  /** Sorting brings in nothing new: every task of the result is in `s`. */
  lemma SortedFrom(s: seq<Task>)
    ensures forall k :: 0 <= k < |SortByCreated(s)| ==> SortByCreated(s)[k] in s
  {
    var r := SortByCreated(s);
    forall k | 0 <= k < |r| ensures r[k] in s {
      assert r[k] in multiset(r);
    }
  }

  /** The two lists split `s`: every task appears in exactly one of them,
      as often as in `s`. */
  lemma RenderPartitions(s: seq<Task>)
    ensures var v := Render(s);
      multiset(v.active) + multiset(v.completed) == multiset(s)
      && |v.active| + |v.completed| == |s|
  {
    var v := Render(s);
    FilterSplit(s, IsActive, IsCompleted);
    var a, c := Filter(s, IsActive), Filter(s, IsCompleted);
    assert |v.active| == |multiset(v.active)| == |multiset(a)| == |a|;
    assert |v.completed| == |multiset(v.completed)| == |multiset(c)| == |c|;
  }

  /** The active list holds only unfinished tasks and the completed list
      only finished ones, each in creation order. */
  lemma RenderSeparates(s: seq<Task>)
    ensures var v := Render(s);
      (forall k :: 0 <= k < |v.active| ==> !v.active[k].completed)
      && (forall k :: 0 <= k < |v.completed| ==> v.completed[k].completed)
      && SortedByCreated(v.active) && SortedByCreated(v.completed)
  {
    var v := Render(s);
    var a, c := Filter(s, IsActive), Filter(s, IsCompleted);
    SortedFrom(a);
    SortedFrom(c);
    assert v.active == SortByCreated(a);
    assert v.completed == SortByCreated(c);
    forall k | 0 <= k < |v.active| ensures !v.active[k].completed {
      assert v.active[k] in a;
    }
    forall k | 0 <= k < |v.completed| ensures v.completed[k].completed {
      assert v.completed[k] in c;
    }
  }

  /** Each list shows its tasks in the order they were added, ties kept in
      list order. */
  lemma RenderKeepsListOrder(s: seq<Task>, c: int)
    ensures CreatedAt(Render(s).active, c) == CreatedAt(Filter(s, IsActive), c)
    ensures CreatedAt(Render(s).completed, c) == CreatedAt(Filter(s, IsCompleted), c)
  {
    SortedIsStable(Filter(s, IsActive), c);
    SortedIsStable(Filter(s, IsCompleted), c);
  }

  /** A list is empty in the view exactly when no task of `s` belongs in it. */
  lemma RenderEmptyIff(s: seq<Task>)
    ensures Render(s).active == [] <==> forall k :: 0 <= k < |s| ==> s[k].completed
    ensures Render(s).completed == [] <==> !AnyCompleted(s)
  {
    FilterEmptyIff(s, IsActive);
    FilterEmptyIff(s, IsCompleted);
    assert Render(s).active == [] <==> Filter(s, IsActive) == [];
    assert Render(s).completed == [] <==> Filter(s, IsCompleted) == [];
  }

  /** Each counter is the length of its own list and the two add up to the
      list, the empty-state notes show exactly
      when nothing belongs in their list, and "Clear completed" is disabled
      exactly when no task is completed, that is, exactly when
      clearCompleted would do nothing. */
  lemma RenderControls(s: seq<Task>)
    ensures var v := Render(s);
      v.activeCount == |v.active| == |Filter(s, IsActive)|
      && v.completedCount == |v.completed| == |Filter(s, IsCompleted)|
      && v.activeCount + v.completedCount == |s|
      && (v.activeEmptyShown <==> forall k :: 0 <= k < |s| ==> s[k].completed)
      && (v.completedEmptyShown <==> !AnyCompleted(s))
      && (v.clearDisabled <==> !AnyCompleted(s))
      && (v.clearDisabled <==> Cleared(s) == s)
  {
    RenderPartitions(s);
    RenderEmptyIff(s);
    ClearedNoopIff(s);
  }
}
