/** Earliest-deadline-first admission (`audio.rs`): the test is exact, up to 64-bit overflow. */
module Edf {
  import opened Bytes

  datatype Task = Task(id: u32, deadline: u64, cost: u64)

  const LIMIT: nat := 0x1_0000_0000_0000_0000

  /** The sort key: deadline, ties by id. */
  predicate KeyBefore(a: Task, b: Task) {
    a.deadline < b.deadline || (a.deadline == b.deadline && a.id < b.id)
  }

  function Total(tasks: seq<Task>): nat {
    if tasks == [] then 0 else Total(tasks[..|tasks| - 1]) + tasks[|tasks| - 1].cost
  }

  // ---------- what it means to meet deadlines ----------

  /** Run back to back from `start` in this order, every task finishes in time. */
  ghost predicate InTime(start: nat, order: seq<Task>) {
    forall i :: 0 <= i < |order| ==> OnTime(start, order, i)
  }

  predicate OnTime(start: nat, order: seq<Task>, i: nat)
    requires i < |order|
  {
    start + Total(order[..i + 1]) <= order[i].deadline
  }

  ghost predicate Feasible(start: nat, tasks: seq<Task>) {
    exists order :: multiset(order) == multiset(tasks) && InTime(start, order)
  }

  // ---------- the sort ----------

  ghost predicate Sorted(s: seq<Task>) {
    forall i, j :: 0 <= i < j < |s| ==> !KeyBefore(s[j], s[i])
  }

  /** Insertion behind everything that does not come later: a stable sort. */
  function Insert(s: seq<Task>, t: Task): (r: seq<Task>)
    ensures multiset(r) == multiset(s) + multiset{t}
    ensures forall x :: x in r <==> x in s || x == t
  {
    if s == [] then [t] else
      var n := |s| - 1;
      assert s == s[..n] + [s[n]];
      if KeyBefore(t, s[n]) then Insert(s[..n], t) + [s[n]] else s + [t]
  }

  lemma {:induction false} InsertSorted(s: seq<Task>, t: Task)
    requires Sorted(s)
    ensures Sorted(Insert(s, t))
  {
    if s != [] {
      var n := |s| - 1;
      if KeyBefore(t, s[n]) {
        InsertSorted(s[..n], t);
        var r := Insert(s[..n], t);
        forall i | 0 <= i < |r|
          ensures !KeyBefore(s[n], r[i])
        {
          assert r[i] in r;
          assert r[i] == t || r[i] in s[..n];
        }
      } else {
        forall i | 0 <= i < |s|
          ensures !KeyBefore(t, s[i])
        {
          assert i == n || !KeyBefore(s[n], s[i]);
        }
      }
    }
  }

  function Sort(tasks: seq<Task>): (r: seq<Task>)
    ensures multiset(r) == multiset(tasks)
  {
    if tasks == [] then [] else
      var n := |tasks| - 1;
      assert tasks == tasks[..n] + [tasks[n]];
      Insert(Sort(tasks[..n]), tasks[n])
  }

  lemma {:induction false} SortSorted(tasks: seq<Task>)
    ensures Sorted(Sort(tasks))
  {
    if tasks != [] {
      var n := |tasks| - 1;
      SortSorted(tasks[..n]);
      InsertSorted(Sort(tasks[..n]), tasks[n]);
    }
  }

  /** The order is by deadline, and by id among equal deadlines. */
  lemma EarliestFirst(tasks: seq<Task>, i: nat, j: nat)
    requires i < j < |tasks|
    ensures |Sort(tasks)| == |tasks|
    ensures var a, b := Sort(tasks)[i], Sort(tasks)[j]; a.deadline < b.deadline || (a.deadline == b.deadline && a.id <= b.id)
  {
    SortSorted(tasks);
    assert |multiset(Sort(tasks))| == |multiset(tasks)|;
  }

  // ---------- earliest deadline first is optimal ----------

  /** The work due by time d. */
  function Due(tasks: seq<Task>, d: nat): nat {
    if tasks == [] then 0 else
      var t := tasks[|tasks| - 1];
      Due(tasks[..|tasks| - 1], d) + if t.deadline <= d then t.cost else 0
  }

  lemma {:induction false} DueAppend(a: seq<Task>, b: seq<Task>, d: nat)
    ensures Due(a + b, d) == Due(a, d) + Due(b, d)
  {
    if b == [] {
      assert a + b == a;
    } else {
      var n := |b| - 1;
      assert (a + b)[..|a| + n] == a + b[..n];
      DueAppend(a, b[..n], d);
    }
  }

  /** What one task contributes to the work due by d. */
  function DueOf(t: Task, d: nat): nat { if t.deadline <= d then t.cost else 0 }

  lemma DueWithout(b: seq<Task>, i: nat, d: nat)
    requires i < |b|
    ensures Due(b, d) == Due(b[..i] + b[i + 1..], d) + DueOf(b[i], d)
  {
    var left, right := b[..i + 1], b[i + 1..];
    assert b == left + right && left[..i] == b[..i];
    DueAppend(left, right, d);
    DueAppend(b[..i], right, d);
  }

  /** The work due does not depend on the order. */
  lemma {:induction false} DueInvariant(a: seq<Task>, b: seq<Task>, d: nat)
    requires multiset(a) == multiset(b)
    ensures Due(a, d) == Due(b, d)
    decreases |a|
  {
    SameLength(a, b);
    if a != [] {
      var n := |a| - 1;
      assert a[n] in multiset(b);
      var i :| 0 <= i < |b| && b[i] == a[n];
      RemoveOne(a, b, i);
      DueInvariant(a[..n], b[..i] + b[i + 1..], d);
      DueWithout(b, i, d);
    }
  }

  lemma SameLength(a: seq<Task>, b: seq<Task>)
    requires multiset(a) == multiset(b)
    ensures |a| == |b|
  {
    assert |multiset(a)| == |a| && |multiset(b)| == |b|;
  }

  lemma RemoveOne(a: seq<Task>, b: seq<Task>, i: nat)
    requires a != [] && i < |b| && b[i] == a[|a| - 1] && multiset(a) == multiset(b)
    ensures multiset(a[..|a| - 1]) == multiset(b[..i] + b[i + 1..])
  {
    MultisetSplit(b, i);
    MultisetSplit(a, |a| - 1);
    assert a[..|a| - 1] + a[|a|..] == a[..|a| - 1];
    Cancel(multiset(a[..|a| - 1]), multiset(b[..i] + b[i + 1..]), b[i]);
  }

  lemma MultisetSplit(s: seq<Task>, i: nat)
    requires i < |s|
    ensures multiset(s) == multiset(s[..i] + s[i + 1..]) + multiset{s[i]}
  {
    assert s == s[..i] + ([s[i]] + s[i + 1..]);
    assert multiset(s) == multiset(s[..i]) + multiset([s[i]] + s[i + 1..]);
  }

  lemma Cancel(m: multiset<Task>, n: multiset<Task>, t: Task)
    requires m + multiset{t} == n + multiset{t}
    ensures m == n
  {
    assert m == m + multiset{t} - multiset{t} && n == n + multiset{t} - multiset{t};
  }

  lemma TotalInvariant(a: seq<Task>, b: seq<Task>)
    requires multiset(a) == multiset(b)
    ensures Total(a) == Total(b)
  {
    DueInvariant(a, b, LIMIT);
    DueAtMostTotal(a, LIMIT);
    DueAtMostTotal(b, LIMIT);
  }

  lemma {:induction false} DueAtMostTotal(tasks: seq<Task>, d: nat)
    ensures Due(tasks, d) <= Total(tasks)
    ensures (forall i :: 0 <= i < |tasks| ==> tasks[i].deadline <= d) ==> Due(tasks, d) == Total(tasks)
    ensures (forall i :: 0 <= i < |tasks| ==> tasks[i].deadline > d) ==> Due(tasks, d) == 0
  {
    if tasks != [] {
      DueAtMostTotal(tasks[..|tasks| - 1], d);
    }
  }

  /** In any order that is in time, the work due by d is done by d. */
  lemma DueFits(start: nat, order: seq<Task>, d: nat, k: nat)
    requires InTime(start, order) && k < |order| && order[k].deadline <= d
    ensures start + Due(order, d) <= d
  {
    var j := LastDue(order, d, k);
    assert OnTime(start, order, j);
    var head, tail := order[..j + 1], order[j + 1..];
    assert order == head + tail;
    DueAppend(head, tail, d);
    DueAtMostTotal(head, d);
    DueAtMostTotal(tail, d);
  }

  lemma {:induction false} LastDue(order: seq<Task>, d: nat, k: nat) returns (j: nat)
    requires k < |order| && order[k].deadline <= d
    ensures j < |order| && order[j].deadline <= d && forall i :: j < i < |order| ==> order[i].deadline > d
    decreases |order| - k
  {
    if i :| k < i < |order| && order[i].deadline <= d {
      j := LastDue(order, d, i);
    } else {
      j := k;
    }
  }

  /** If any order is in time, the sorted one is. */
  lemma SortedIsOptimal(start: nat, order: seq<Task>, s: seq<Task>)
    requires InTime(start, order) && Sorted(s) && multiset(order) == multiset(s)
    ensures InTime(start, s)
  {
    forall i | 0 <= i < |s|
      ensures OnTime(start, s, i)
    {
      var d := s[i].deadline;
      assert s[i] in multiset(order);
      var k :| 0 <= k < |order| && order[k] == s[i];
      DueFits(start, order, d, k);
      DueInvariant(order, s, d);
      assert s == s[..i + 1] + s[i + 1..];
      DueAppend(s[..i + 1], s[i + 1..], d);
      DueAtMostTotal(s[..i + 1], d);
    }
  }

  lemma FeasibleIffSorted(start: nat, tasks: seq<Task>)
    ensures Feasible(start, tasks) <==> InTime(start, Sort(tasks))
  {
    SortSorted(tasks);
    if order :| multiset(order) == multiset(tasks) && InTime(start, order) {
      SortedIsOptimal(start, order, Sort(tasks));
    }
  }

  // ---------- the 64-bit clock ----------

  /** `+=` on 64 bits. */
  function Add64(a: u64, b: u64): u64 {
    if a as int + b < LIMIT then a as int + b else a as int + b - LIMIT
  }

  /** The clock reading after i tasks. */
  function Clock(start: u64, s: seq<Task>, i: nat): u64
    requires i <= |s|
  {
    if i == 0 then start else Add64(Clock(start, s, i - 1), s[i - 1].cost)
  }

  /** Until it wraps, the clock reads the exact finishing time. */
  lemma {:induction false} ClockExact(start: u64, s: seq<Task>, i: nat)
    requires i <= |s| && start + Total(s[..i]) < LIMIT
    ensures Clock(start, s, i) == start + Total(s[..i])
    decreases i
  {
    if i > 0 {
      assert s[..i][..i - 1] == s[..i - 1];
      ClockExact(start, s, i - 1);
    }
  }

  predicate Punctual(start: u64, s: seq<Task>, i: nat)
    requires i < |s|
  {
    Clock(start, s, i + 1) <= s[i].deadline
  }

  ghost predicate Passes(start: u64, s: seq<Task>) {
    forall i :: 0 <= i < |s| ==> Punctual(start, s, i)
  }

  lemma {:induction false} TotalMonotone(s: seq<Task>, i: nat)
    requires i <= |s|
    ensures Total(s[..i]) <= Total(s)
    decreases |s|
  {
    if i < |s| {
      TotalMonotone(s[..|s| - 1], i);
      assert s[..|s| - 1][..i] == s[..i];
    } else {
      assert s[..i] == s;
    }
  }

  /** Meeting every deadline is passing the test without the clock ever wrapping. */
  lemma InTimeExactly(start: u64, s: seq<Task>)
    ensures InTime(start, s) <==> Passes(start, s) && (s == [] || start + Total(s) < LIMIT)
  {
    if InTime(start, s) {
      if s != [] {
        assert s[..|s|] == s;
        assert OnTime(start, s, |s| - 1);
      }
      forall i | 0 <= i < |s|
        ensures Punctual(start, s, i)
      {
        assert OnTime(start, s, i);
        ClockExact(start, s, i + 1);
      }
    } else {
      var i :| 0 <= i < |s| && !OnTime(start, s, i);
      TotalMonotone(s, i + 1);
      if start + Total(s) < LIMIT {
        ClockExact(start, s, i + 1);
        assert !Punctual(start, s, i);
      }
    }
  }

  /** Some order meets every deadline exactly when the test passes and the clock cannot wrap. */
  lemma FeasibleExactly(start: u64, tasks: seq<Task>)
    ensures Feasible(start, tasks) <==> Passes(start, Sort(tasks)) && (tasks == [] || start + Total(tasks) < LIMIT)
  {
    FeasibleIffSorted(start, tasks);
    InTimeExactly(start, Sort(tasks));
    TotalInvariant(Sort(tasks), tasks);
    SameLength(Sort(tasks), tasks);
  }

  class EdfScheduler {
    var tasks: seq<Task>

    constructor ()
      ensures tasks == []
    {
      tasks := [];
    }

    method Enqueue(t: Task)
      modifies this
      ensures tasks == old(tasks) + [t]
    {
      tasks := tasks + [t];
    }

    /** The ids in order of deadline, ties by id. */
    method Order() returns (ids: seq<u32>)
      ensures |ids| == |tasks| == |Sort(tasks)|
      ensures Sorted(Sort(tasks)) && forall i :: 0 <= i < |ids| ==> ids[i] == Sort(tasks)[i].id
    {
      SortSorted(tasks);
      var s := Sort(tasks);
      assert |s| == |multiset(s)| == |tasks|;
      ids := seq(|s|, i requires 0 <= i < |s| => s[i].id);
    }

    /** True, unless the clock wraps, if and only if some order of the tasks meets every deadline. */
    method MeetsAllDeadlines(start: u64) returns (ok: bool)
      ensures ok <==> Passes(start, Sort(tasks))
      ensures Feasible(start, tasks) <==> ok && (tasks == [] || start + Total(tasks) < LIMIT)
    {
      FeasibleExactly(start, tasks);
      ok := RunInOrder(start, Sort(tasks));
    }
  }

  /** The loop of `meets_all_deadlines` over the sorted tasks. */
  method RunInOrder(start: u64, s: seq<Task>) returns (ok: bool)
    ensures ok <==> Passes(start, s)
  {
    var now := start;
    for i := 0 to |s|
      invariant now == Clock(start, s, i)
      invariant forall j :: 0 <= j < i ==> Punctual(start, s, j)
    {
      now := Add64(now, s[i].cost);
      assert now == Clock(start, s, i + 1);
      if now > s[i].deadline {
        assert !Punctual(start, s, i);
        return false;
      }
    }
    ok := true;
  }

  /** With a wrapping clock the test can pass although no order is in time. */
  lemma WrapAdmits()
    ensures exists start: u64, s: seq<Task> :: Passes(start, Sort(s)) && !Feasible(start, s)
  {
    var t := Task(1, 5, 0xffff_ffff_ffff_fffb);
    var s := [t];
    assert s[..1] == s && s[..0] == [];
    assert Total(s) == Total(s[..0]) + t.cost;
    assert Clock(10, s, 1) == 5 && Punctual(10, s, 0);
    InTimeExactly(10, s);
    assert Sort(s) == s by {
      assert s[..0] == [];
      assert Sort(s) == Insert(Sort(s[..0]), t);
    }
    FeasibleIffSorted(10, s);
    assert Passes(10, Sort(s)) && !Feasible(10, s);
  }
}
