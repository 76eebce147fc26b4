/** The completion-status threads and how engines are spread over them. */
module ThreadPool {
  // ---- the scan, on values ----

  /** The scan of `xdma_thread_add_work` from thread i on, with idx the choice so far.  The running
      minimum of the code is set once, from thread 0, and never updated. */
  function Scan(c: seq<nat>, i: nat, idx: nat): (r: nat)
    requires 1 <= i <= |c| && idx < |c|
    ensures r < |c|
    decreases |c| - i
  {
    if i == |c| then idx
    else if c[i] == 0 then i
    else Scan(c, i + 1, if c[i] < c[0] then i else idx)
  }

  function Pick(c: seq<nat>): (r: nat)
    requires c != []
    ensures r < |c|
  {
    Scan(c, 1, 0)
  }

  function Add(c: seq<nat>): seq<nat>
    requires c != []
  {
    c[Pick(c) := c[Pick(c)] + 1]
  }

  function AddMany(c: seq<nat>, m: nat): (r: seq<nat>)
    requires c != []
    ensures |r| == |c|
    decreases m
  {
    if m == 0 then c else Add(AddMany(c, m - 1))
  }

  /** The largest and the smallest count are within one of each other. */
  ghost predicate Balanced(c: seq<nat>) {
    forall i, j :: 0 <= i < |c| && 0 <= j < |c| ==> c[i] <= c[j] + 1
  }

  /** Whatever the counts, an idle thread is picked whenever there is one. */
  lemma {:induction false} ScanFindsIdle(c: seq<nat>, i: nat, idx: nat, z: nat)
    requires 1 <= i <= |c| && idx < |c| && z < |c| && c[z] == 0 && (z >= i || (z == 0 && idx == 0))
    ensures c[Scan(c, i, idx)] == 0
    decreases |c| - i
  {
    if i == |c| || c[i] == 0 {
    } else {
      ScanFindsIdle(c, i + 1, if c[i] < c[0] then i else idx, z);
    }
  }

  lemma PicksIdle(c: seq<nat>, z: nat)
    requires z < |c| && c[z] == 0
    ensures c[Pick(c)] == 0
  {
    ScanFindsIdle(c, 1, 0, z);
  }

  /** On balanced counts the scan finds a least-loaded thread although its minimum is stale: any
      thread below the first is one below it, so all of them are equally good. */
  lemma {:induction false} ScanFindsLeast(c: seq<nat>, i: nat, idx: nat)
    requires 1 <= i <= |c| && idx < |c| && Balanced(c)
    requires c[idx] <= c[0] && forall k :: 0 <= k < i ==> c[idx] <= c[k]
    ensures forall k :: 0 <= k < |c| ==> c[Scan(c, i, idx)] <= c[k]
    decreases |c| - i
  {
    if i == |c| || c[i] == 0 {
    } else {
      ScanFindsLeast(c, i + 1, if c[i] < c[0] then i else idx);
    }
  }

  lemma AddKeepsBalance(c: seq<nat>)
    requires c != [] && Balanced(c)
    ensures Balanced(Add(c))
    ensures forall k :: 0 <= k < |c| ==> c[Pick(c)] <= c[k]
  {
    ScanFindsLeast(c, 1, 0);
  }

  /** From all-zero counts, any number of additions keeps the counts within one of each other, and
      every addition goes to a least-loaded thread. */
  lemma {:induction false} AdditionsStayBalanced(n: nat, m: nat)
    requires n >= 1
    ensures var c := AddMany(seq(n, _ => 0), m);
            && Balanced(c) && Total(c) == m
            && forall k :: 0 <= k < n ==> c[Pick(c)] <= c[k]
    decreases m
  {
    var zeros: seq<nat> := seq(n, _ => 0);
    if m == 0 {
      ZeroTotal(zeros);
    } else {
      AdditionsStayBalanced(n, m - 1);
      var c := AddMany(zeros, m - 1);
      AddKeepsBalance(c);
      TotalUpdate(c, Pick(c));
    }
    AddKeepsBalance(AddMany(zeros, m));
  }

  function Total(c: seq<nat>): nat { if c == [] then 0 else c[0] + Total(c[1..]) }

  lemma {:induction false} ZeroTotal(c: seq<nat>)
    requires forall i :: 0 <= i < |c| ==> c[i] == 0
    ensures Total(c) == 0
  {
    if c == [] {
    } else {
      ZeroTotal(c[1..]);
    }
  }

  lemma {:induction false} TotalUpdate(c: seq<nat>, i: nat)
    requires i < |c|
    ensures Total(c[i := c[i] + 1]) == Total(c) + 1
  {
    if i == 0 {
      assert c[0 := c[0] + 1][1..] == c[1..];
    } else {
      TotalUpdate(c[1..], i - 1);
      assert c[i := c[i] + 1][1..] == c[1..][i - 1 := c[i] + 1];
    }
  }

  /** Where the scan lands when none of the threads it still looks at is idle: on the last one below
      the first thread's count. */
  lemma {:induction false} ScanLands(c: seq<nat>, i: nat, idx: nat)
    requires 1 <= i <= |c| && idx < |c| && forall k :: i <= k < |c| ==> c[k] != 0
    ensures var r := Scan(c, i, idx);
            && (r == idx || (r >= i && c[r] < c[0]))
            && forall k :: i <= k < |c| && k > r ==> c[k] >= c[0]
    decreases |c| - i
  {
    if i == |c| {
    } else {
      ScanLands(c, i + 1, if c[i] < c[0] then i else idx);
    }
  }

  /** For arbitrary counts, as removals may leave them, the pick is a least-loaded thread unless no
      thread is idle and the last thread below the first one's count is above another's: the
      running minimum is never updated. */
  lemma LeastExactlyWhen(c: seq<nat>)
    requires c != []
    ensures (forall k :: 0 <= k < |c| ==> c[Pick(c)] <= c[k])
       <==> (exists z :: 0 <= z < |c| && c[z] == 0) || !(exists i, j :: Misled(c, i, j))
  {
    if z :| 0 <= z < |c| && c[z] == 0 {
      PicksIdle(c, z);
    } else {
      ScanLands(c, 1, 0);
      var r := Pick(c);
      if i, j :| Misled(c, i, j) {
        assert r == j;
      } else if k :| 0 <= k < |c| && c[k] < c[r] {
        assert Misled(c, k, r);
      }
    }
  }

  /** Thread j is the last below the first thread's count, and thread i has less. */
  ghost predicate Misled(c: seq<nat>, i: int, j: int) {
    && 0 <= i < |c| && 0 <= j < |c| && c[i] < c[j] < c[0]
    && forall k :: j < k < |c| ==> c[k] >= c[0]
  }

  // ---- which counts there can be ----

  /** The counts after work has been removed from the given threads, one after the other. */
  function RemoveMany(c: seq<nat>, threads: seq<nat>): seq<nat>
    decreases |threads|
  {
    if threads == [] then c
    else
      var i := threads[0];
      if i >= |c| || c[i] == 0 then c else RemoveMany(c[i := c[i] - 1], threads[1..])
  }

  /** Every removal is from a thread that has work. */
  predicate CanRemove(c: seq<nat>, threads: seq<nat>)
    decreases |threads|
  {
    threads == [] ||
    (threads[0] < |c| && c[threads[0]] > 0 && CanRemove(c[threads[0] := c[threads[0]] - 1], threads[1..]))
  }

  lemma {:induction false} TotalAtLeast(c: seq<nat>, k: nat)
    requires forall i :: 0 <= i < |c| ==> c[i] >= k
    ensures Total(c) >= |c| * k
  {
    if c == [] {
    } else {
      TotalAtLeast(c[1..], k);
      assert |c| * k == k + |c[1..]| * k;
    }
  }

  lemma {:induction false} TotalAtMost(c: seq<nat>, k: nat)
    requires forall i :: 0 <= i < |c| ==> c[i] <= k
    ensures Total(c) <= |c| * k
  {
    if c == [] {
    } else {
      TotalAtMost(c[1..], k);
      assert |c| * k == k + |c[1..]| * k;
    }
  }

  /** Balanced counts with k each on average are all k. */
  lemma BalancedFull(c: seq<nat>, k: nat, i: nat)
    requires Balanced(c) && Total(c) == |c| * k && i < |c|
    ensures c[i] == k
  {
    if c[i] > k {
      var c' := c[i := c[i] - 1];
      assert c'[i := c'[i] + 1] == c;
      TotalAtLeast(c', k);
      TotalUpdate(c', i);
    } else if c[i] < k {
      var c' := c[i := c[i] + 1];
      TotalAtMost(c', k);
      TotalUpdate(c, i);
    }
  }

  /** From counts no smaller, removals lead to any wanted counts. */
  lemma {:induction false} RemovalsTo(c: seq<nat>, t: seq<nat>) returns (threads: seq<nat>)
    requires |c| == |t| && forall i :: 0 <= i < |c| ==> c[i] >= t[i]
    ensures CanRemove(c, threads) && RemoveMany(c, threads) == t
    decreases Total(c)
  {
    if c == t {
      threads := [];
    } else {
      var i :| 0 <= i < |c| && c[i] != t[i];
      var c' := c[i := c[i] - 1];
      TotalUpdate(c', i);
      assert c'[i := c'[i] + 1] == c;
      var rest := RemovalsTo(c', t);
      threads := [i] + rest;
      assert threads[1..] == rest;
    }
  }

  /** Any counts at all are reached from all-zero ones by additions followed by removals. */
  lemma EveryCountReached(t: seq<nat>) returns (m: nat, threads: seq<nat>)
    requires t != []
    ensures var c := AddMany(seq(|t|, _ => 0), m);
            CanRemove(c, threads) && RemoveMany(c, threads) == t
  {
    var k := Largest(t);
    m := |t| * k;
    AdditionsStayBalanced(|t|, m);
    var c := AddMany(seq(|t|, _ => 0), m);
    forall i | 0 <= i < |t| ensures c[i] >= t[i] {
      BalancedFull(c, k, i);
    }
    threads := RemovalsTo(c, t);
  }

  lemma {:induction false} Largest(t: seq<nat>) returns (k: nat)
    ensures forall i :: 0 <= i < |t| ==> t[i] <= k
  {
    if t == [] {
      k := 0;
    } else {
      var rest := Largest(t[1..]);
      k := if t[0] > rest then t[0] else rest;
      assert forall i :: 0 < i < |t| ==> t[i] == t[1..][i - 1];
    }
  }

  /** So the pick can miss: additions and removals lead to counts 3, 1 and 2, where the scan settles on the
      last thread although the second has less. */
  lemma NotLeastAfterRemovals() returns (m: nat, threads: seq<nat>)
    ensures var added := AddMany(seq(3, _ => 0), m);
            CanRemove(added, threads) && RemoveMany(added, threads) == [3, 1, 2]
    ensures var c := [3, 1, 2]; Pick(c) == 2 && c[1] < c[Pick(c)]
  {
    var c := [3, 1, 2];
    assert Scan(c, 3, 2) == 2;
    assert Scan(c, 2, 1) == 2;
    m, threads := EveryCountReached(c);
  }

  // ---- the threads ----

  /** The list with the first occurrence of e taken out. */
  function Without(list: seq<nat>, e: nat): seq<nat> {
    if list == [] then [] else if list[0] == e then list[1..] else [list[0]] + Without(list[1..], e)
  }

  lemma {:induction false} WithoutAt(list: seq<nat>, k: nat)
    requires k < |list| && forall l :: 0 <= l < k ==> list[l] != list[k]
    ensures Without(list, list[k]) == list[..k] + list[k + 1..]
  {
    if k == 0 {
      assert list[..0] + list[1..] == list[1..];
    } else {
      var rest := list[1..];
      WithoutAt(rest, k - 1);
      assert rest[k - 1] == list[k] && rest[k..] == list[k + 1..];
      assert [list[0]] + rest[..k - 1] == list[..k];
      assert [list[0]] + (rest[..k - 1] + rest[k..]) == [list[0]] + rest[..k - 1] + rest[k..];
    }
  }

  /** The list of thread i: its engines, each once. */
  ghost predicate OnThread(list: seq<nat>, home: map<nat, nat>, i: nat) {
    && (forall k :: 0 <= k < |list| ==> list[k] in home && home[list[k]] == i)
    && (forall k, l :: 0 <= k < l < |list| ==> list[k] != list[l])
  }

  /** Counts, lists and the engines' threads agree. */
  ghost predicate Spread(counts: seq<nat>, lists: seq<seq<nat>>, home: map<nat, nat>) {
    && |counts| == |lists|
    && (forall i :: 0 <= i < |lists| ==> counts[i] == |lists[i]| && OnThread(lists[i], home, i))
    && (forall e :: e in home ==> home[e] < |lists| && e in lists[home[e]])
  }

  lemma SpreadAdd(counts: seq<nat>, lists: seq<seq<nat>>, home: map<nat, nat>, i: nat, e: nat)
    requires Spread(counts, lists, home) && i < |lists| && e !in home
    ensures Spread(counts[i := counts[i] + 1], lists[i := lists[i] + [e]], home[e := i])
  {
    var l, h := lists[i := lists[i] + [e]], home[e := i];
    forall j | 0 <= j < |l| ensures OnThread(l[j], h, j) {
      assert OnThread(lists[j], home, j);
    }
  }

  lemma SpreadRemove(counts: seq<nat>, lists: seq<seq<nat>>, home: map<nat, nat>, e: nat)
    requires Spread(counts, lists, home) && e in home
    ensures home[e] < |lists| && counts[home[e]] >= 1
    ensures var i := home[e];
            Spread(counts[i := counts[i] - 1], lists[i := Without(lists[i], e)], home - {e})
  {
    hide OnThread, Without;
    var i := home[e];
    var list := lists[i];
    var k :| 0 <= k < |list| && list[k] == e;
    LeavesList(list, home, i, k);
    var l := lists[i := Without(list, e)];
    forall j | 0 <= j < |l| ensures OnThread(l[j], home - {e}, j) {
      if j != i {
        LeavesOthers(lists[j], home, j, e);
      }
    }
  }

  /** Taking engine list[k] off the list of thread i. */
  lemma LeavesList(list: seq<nat>, home: map<nat, nat>, i: nat, k: nat)
    requires OnThread(list, home, i) && k < |list|
    ensures var l := Without(list, list[k]);
            && OnThread(l, home - {list[k]}, i) && |l| == |list| - 1
            && forall e :: e in list && e != list[k] ==> e in l
  {
    hide Without;
    WithoutAt(list, k);
    var l := list[..k] + list[k + 1..];
    assert forall j :: 0 <= j < |l| ==> l[j] == list[if j < k then j else j + 1];
    forall e | e in list && e != list[k] ensures e in l {
      var j :| 0 <= j < |list| && list[j] == e;
      assert l[if j < k then j else j - 1] == e;
    }
  }

  /** The lists of other threads do not mention it. */
  lemma LeavesOthers(list: seq<nat>, home: map<nat, nat>, i: nat, e: nat)
    requires OnThread(list, home, i) && e in home && home[e] != i
    ensures OnThread(list, home - {e}, i)
  {
  }

  /** All completion-status threads: a count and a work list each, and the thread each engine is on. */
  class Threads {
    const count: nat
    const workCnt: array<nat>
    const workList: array<seq<nat>>
    var cmplthp: map<nat, nat>

    ghost predicate Valid()
      reads this, workCnt, workList
    {
      count >= 1 && workCnt.Length == workList.Length == count && Spread(workCnt[..], workList[..], cmplthp)
    }

    constructor (n: nat)
      requires n >= 1
      ensures Valid() && count == n && workCnt[..] == seq(n, _ => 0) && cmplthp == map[]
      ensures fresh(workCnt) && fresh(workList)
    {
      count := n;
      workCnt := new nat[n](_ => 0);
      workList := new seq<nat>[n](_ => []);
      cmplthp := map[];
    }

    /** The scanning loop. */
    method PickThread() returns (idx: nat)
      requires Valid()
      ensures idx == Pick(workCnt[..])
    {
      var v := 0;
      idx := count;
      var i := 0;
      while i < count
        invariant 0 <= i <= count
        invariant i == 0 ==> idx == count
        invariant i > 0 ==> idx < count && v == workCnt[0] && Pick(workCnt[..]) == Scan(workCnt[..], i, idx)
      {
        if idx == count {
          v := workCnt[i];
          idx := i;
        } else if workCnt[i] == 0 {
          idx := i;
          break;
        } else if workCnt[i] < v {
          idx := i;
        }
        i := i + 1;
      }
    }

    /** `xdma_thread_add_work`. */
    method AddWork(engine: nat)
      requires Valid() && engine !in cmplthp
      modifies this`cmplthp, workCnt, workList
      ensures Valid() && workCnt[..] == Add(old(workCnt[..]))
      ensures var i := Pick(old(workCnt[..]));
              && workList[..] == old(workList[..])[i := old(workList[i]) + [engine]]
              && cmplthp == old(cmplthp)[engine := i]
    {
      hide Spread, Pick;
      var idx := PickThread();
      SpreadAdd(workCnt[..], workList[..], cmplthp, idx, engine);
      workList[idx] := workList[idx] + [engine];
      workCnt[idx] := workCnt[idx] + 1;
      cmplthp := cmplthp[engine := idx];
    }

    /** `xdma_thread_remove_work`. */
    method RemoveWork(engine: nat)
      requires Valid()
      modifies this`cmplthp, workCnt, workList
      ensures Valid() && cmplthp == old(cmplthp) - {engine}
      ensures engine !in old(cmplthp) ==> workCnt[..] == old(workCnt[..]) && workList[..] == old(workList[..])
      ensures engine in old(cmplthp) ==>
                var i := old(cmplthp[engine]);
                && workCnt[..] == old(workCnt[..])[i := old(workCnt[i]) - 1]
                && workList[..] == old(workList[..])[i := Without(old(workList[i]), engine)]
    {
      hide Spread, Without;
      if engine in cmplthp {
        SpreadRemove(workCnt[..], workList[..], cmplthp, engine);
        var i := cmplthp[engine];
        cmplthp := cmplthp - {engine};
        workList[i] := Without(workList[i], engine);
        workCnt[i] := workCnt[i] - 1;
      }
    }
  }
}
