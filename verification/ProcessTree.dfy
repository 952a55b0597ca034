/** CPU time of a process tree, read off parsed `ps` rows. */
module ProcessTree {
  import opened Wrappers
  import opened Reachability
  import opened Selection

  /** One `pid ppid time` line whose numbers parsed. */
  datatype Row = Row(pid: nat, ppid: nat, cpuMs: nat)

  // ---------- what the rows say ----------

  /** The last line of a pid counts. */
  function CpuByPid(rows: seq<Row>): map<nat, nat> {
    if rows == [] then map[]
    else CpuByPid(rows[..|rows| - 1])[rows[|rows| - 1].pid := rows[|rows| - 1].cpuMs]
  }

  function ChildList(rows: seq<Row>, ppid: nat): seq<nat> {
    if rows == [] then []
    else
      var last := rows[|rows| - 1];
      ChildList(rows[..|rows| - 1], ppid) + (if last.ppid == ppid then [last.pid] else [])
  }

  function Pids(rows: seq<Row>): set<nat> {
    set r | r in rows :: r.pid
  }

  /** The processes a walk may move to from `pid`: its non-zero children. */
  function Children(rows: seq<Row>): nat -> set<nat> {
    ppid => set r | r in rows && r.ppid == ppid && r.pid != 0 :: r.pid
  }

  ghost predicate InTree(rows: seq<Row>, root: nat, pid: nat) {
    Reachable(Children(rows), root, pid)
  }

  /** Every process in the tree of `root`, once. */
  ghost function Tree(rows: seq<Row>, root: nat): set<nat> {
    set pid | pid in Pids(rows) + {root} && InTree(rows, root, pid)
  }

  function CpuOf(cpu: map<nat, nat>, pid: nat): nat {
    if pid in cpu then cpu[pid] else 0
  }

  ghost function Total(pids: set<nat>, cpu: map<nat, nat>): nat {
    if pids == {} then 0
    else
      var pid :| pid in pids;
      CpuOf(cpu, pid) + Total(pids - {pid}, cpu)
  }

  lemma {:induction false} TotalAdd(pids: set<nat>, cpu: map<nat, nat>, x: nat)
    requires x !in pids
    ensures Total(pids + {x}, cpu) == CpuOf(cpu, x) + Total(pids, cpu)
  {
    TotalRemove(pids + {x}, cpu, x);
    assert pids + {x} - {x} == pids;
  }

  /** The sum does not depend on the order in which the processes are taken. */
  lemma {:induction false} TotalRemove(pids: set<nat>, cpu: map<nat, nat>, x: nat)
    requires x in pids
    ensures Total(pids, cpu) == CpuOf(cpu, x) + Total(pids - {x}, cpu)
    decreases |pids|
  {
    var pid :| pid in pids && Total(pids, cpu) == CpuOf(cpu, pid) + Total(pids - {pid}, cpu);
    if pid != x {
      TotalRemove(pids - {pid}, cpu, x);
      TotalRemove(pids - {x}, cpu, pid);
      assert pids - {pid} - {x} == pids - {x} - {pid};
    }
  }

  lemma {:induction false} ChildListIs(rows: seq<Row>, ppid: nat)
    ensures forall pid :: pid in ChildList(rows, ppid) <==> exists r :: r in rows && r.ppid == ppid && r.pid == pid
    ensures forall pid | pid in ChildList(rows, ppid) :: pid in Pids(rows)
    ensures forall pid :: pid in Children(rows)(ppid) <==> pid in ChildList(rows, ppid) && pid != 0
  {
    if rows != [] {
      var n := |rows| - 1;
      ChildListIs(rows[..n], ppid);
      assert rows == rows[..n] + [rows[n]];
      assert rows[n] in rows;
    }
  }

  // ---------- the walk ----------

  datatype Index = Index(childrenByParent: map<nat, seq<nat>>, cpuByPid: map<nat, nat>)

  ghost predicate Indexes(index: Index, rows: seq<Row>) {
    && index.cpuByPid == CpuByPid(rows)
    && forall p :: (if p in index.childrenByParent then index.childrenByParent[p] else []) == ChildList(rows, p)
  }

  method IndexRows(rows: seq<Row>) returns (index: Index)
    ensures Indexes(index, rows)
  {
    var childrenByParent: map<nat, seq<nat>> := map[];
    var cpuByPid: map<nat, nat> := map[];
    for i := 0 to |rows|
      invariant Indexes(Index(childrenByParent, cpuByPid), rows[..i])
    {
      var row := rows[i];
      assert rows[..i + 1][..i] == rows[..i];
      cpuByPid := cpuByPid[row.pid := row.cpuMs];
      var children := if row.ppid in childrenByParent then childrenByParent[row.ppid] else [];
      childrenByParent := childrenByParent[row.ppid := children + [row.pid]];
    }
    assert rows[..|rows|] == rows;
    index := Index(childrenByParent, cpuByPid);
  }

  ghost predicate WalkInv(rows: seq<Row>, root: nat, seen: set<nat>, stack: seq<nat>) {
    && (forall pid | pid in seen :: pid != 0 && InTree(rows, root, pid))
    && (forall pid | pid in stack :: pid in Pids(rows) + {root} && (pid != 0 ==> InTree(rows, root, pid)))
    && (root in seen || root in stack)
    && forall pid, child | pid in seen && child in Children(rows)(pid) :: child in seen || child in stack
  }

  lemma {:induction false} IndexMeans(index: Index, rows: seq<Row>)
    requires Indexes(index, rows)
    ensures index.cpuByPid == CpuByPid(rows)
    ensures forall p :: (if p in index.childrenByParent then index.childrenByParent[p] else []) == ChildList(rows, p)
  {
  }

  lemma {:induction false} WalkStarts(rows: seq<Row>, root: nat)
    ensures WalkInv(rows, root, {}, [root]) && Total({}, CpuByPid(rows)) == 0
  {
    RootReachable(Children(rows), root);
  }

  lemma {:induction false} OnStackIsListed(rows: seq<Row>, root: nat, seen: set<nat>, stack: seq<nat>, pid: nat)
    requires WalkInv(rows, root, seen, stack + [pid])
    ensures pid in Pids(rows) + {root}
  {
    assert pid in stack + [pid];
  }

  lemma {:induction false} VisitKeepsInv(rows: seq<Row>, root: nat, seen: set<nat>, stack: seq<nat>, pid: nat)
    requires WalkInv(rows, root, seen, stack + [pid]) && pid != 0
    ensures WalkInv(rows, root, seen + {pid}, stack + ChildList(rows, pid))
  {
    assert pid in stack + [pid];
    var next := stack + ChildList(rows, pid);
    forall p, child | p in seen + {pid} && child in Children(rows)(p)
      ensures child in seen + {pid} || child in next
    {
      ChildListIs(rows, p);
      assert p in seen ==> child in seen || child in stack + [pid];
    }
    forall p | p in next
      ensures p in Pids(rows) + {root} && (p != 0 ==> InTree(rows, root, p))
    {
      ChildListIs(rows, pid);
      if p in stack {
        assert p in stack + [pid];
      } else if p != 0 {
        StepReachable(Children(rows), root, pid, p);
      }
    }
    assert root in stack + [pid] ==> root in stack || root == pid;
  }

  lemma {:induction false} SkipKeepsInv(rows: seq<Row>, root: nat, seen: set<nat>, stack: seq<nat>, pid: nat)
    requires WalkInv(rows, root, seen, stack + [pid]) && root != 0 && (pid == 0 || pid in seen)
    ensures WalkInv(rows, root, seen, stack)
  {
    assert forall p | p in stack :: p in stack + [pid];
    assert forall p | p in stack + [pid] :: p in stack || p == pid;
    forall p, child | p in seen && child in Children(rows)(p)
      ensures child in seen || child in stack
    {
      ChildListIs(rows, p);
      assert child in seen || child in stack + [pid];
    }
  }

  lemma {:induction false} WalkDone(rows: seq<Row>, root: nat, seen: set<nat>)
    requires WalkInv(rows, root, seen, [])
    ensures seen == Tree(rows, root)
  {
    assert Closed(Children(rows), seen);
    forall pid | InTree(rows, root, pid)
      ensures pid in seen
    {
      ClosedHoldsReachable(Children(rows), root, seen, pid);
    }
    forall pid | pid in seen
      ensures pid in Pids(rows) + {root}
    {
      InTreeIsListed(rows, root, pid);
    }
  }

  lemma {:induction false} InTreeIsListed(rows: seq<Row>, root: nat, pid: nat)
    requires InTree(rows, root, pid)
    ensures pid in Pids(rows) + {root}
  {
    var path :| IsPath(Children(rows), root, path, pid);
    if |path| > 1 {
      assert path[|path| - 2 + 1] in Children(rows)(path[|path| - 2]);
    }
  }

  /**
   The CPU time of every process in the tree of `rootPid`, each counted once, for any parent
   relation including cycles and repeated lines.  `rows` is `None` when `ps` fails.
   */
  method ReadProcessTreeCpuMs(rootPid: nat, windows: bool, rows: Option<seq<Row>>) returns (r: Option<nat>)
    ensures r.None? <==> rootPid == 0 || windows || rows.None? || rootPid !in Pids(rows.value)
    ensures r.Some? ==> r.value == Total(Tree(rows.value, rootPid), CpuByPid(rows.value))
  {
    hide WalkInv, Total, Children, CpuByPid, Tree, Indexes, ChildList;
    if rootPid == 0 || windows || rows.None? {
      return None;
    }
    var index := IndexRows(rows.value);
    CpuKeys(rows.value);
    IndexMeans(index, rows.value);
    WalkStarts(rows.value, rootPid);
    if rootPid !in index.cpuByPid {
      return None;
    }
    var totalCpuMs: nat := 0;
    var seen: set<nat> := {};
    var stack := [rootPid];
    while |stack| > 0
      invariant WalkInv(rows.value, rootPid, seen, stack)
      invariant totalCpuMs == Total(seen, CpuByPid(rows.value))
      decreases Pids(rows.value) + {rootPid} - seen, |stack|
    {
      var pid := stack[|stack| - 1];
      assert stack == stack[..|stack| - 1] + [pid];
      stack := stack[..|stack| - 1];
      if pid == 0 || pid in seen {
        SkipKeepsInv(rows.value, rootPid, seen, stack, pid);
        continue;
      }
      OnStackIsListed(rows.value, rootPid, seen, stack, pid);
      VisitKeepsInv(rows.value, rootPid, seen, stack, pid);
      TotalAdd(seen, CpuByPid(rows.value), pid);
      seen := seen + {pid};
      totalCpuMs := totalCpuMs + CpuOf(index.cpuByPid, pid);
      stack := stack + (if pid in index.childrenByParent then index.childrenByParent[pid] else []);
    }
    WalkDone(rows.value, rootPid, seen);
    return Some(totalCpuMs);
  }

  lemma {:induction false} CpuKeys(rows: seq<Row>)
    ensures CpuByPid(rows).Keys == Pids(rows)
  {
    if rows != [] {
      var n := |rows| - 1;
      CpuKeys(rows[..n]);
      assert rows == rows[..n] + [rows[n]];
    }
  }

  /** The CPU time of a process is that of its last line. */
  lemma {:induction false} LastLineCounts(rows: seq<Row>, i: nat)
    requires i < |rows| && forall j | i < j < |rows| :: rows[j].pid != rows[i].pid
    ensures rows[i].pid in CpuByPid(rows) && CpuByPid(rows)[rows[i].pid] == rows[i].cpuMs
  {
    if i < |rows| - 1 {
      LastLineCounts(rows[..|rows| - 1], i);
    }
  }

  /** The total adds up the last line of every process in the tree, and starts from nothing. */
  lemma {:induction false} TotalCounts(rows: seq<Row>, pids: set<nat>, i: nat)
    requires i < |rows| && rows[i].pid in pids && forall j | i < j < |rows| :: rows[j].pid != rows[i].pid
    ensures Total({}, CpuByPid(rows)) == 0
    ensures Total(pids, CpuByPid(rows)) == rows[i].cpuMs + Total(pids - {rows[i].pid}, CpuByPid(rows))
  {
    LastLineCounts(rows, i);
    TotalRemove(pids, CpuByPid(rows), rows[i].pid);
  }

  /** The lines that name `ppid` as parent. */
  function ChildrenIn(rows: seq<Row>, ppid: nat): nat -> bool {
    (i: nat) => i < |rows| && rows[i].ppid == ppid
  }

  /** The children of a process are listed in the order of their lines, repeated ones included. */
  lemma {:induction false} ChildrenInOrder(rows: seq<Row>, ppid: nat) returns (at: seq<nat>)
    ensures Selects(at, |rows|, ChildrenIn(rows, ppid))
    ensures |ChildList(rows, ppid)| == |at|
    ensures forall k | 0 <= k < |at| :: at[k] < |rows| && ChildList(rows, ppid)[k] == rows[at[k]].pid
  {
    if rows == [] {
      at := [];
    } else {
      hide Selects;
      var n := |rows| - 1;
      at := ChildrenInOrder(rows[..n], ppid);
      SelectsLast(at, n, ChildrenIn(rows[..n], ppid), ChildrenIn(rows, ppid));
      at := at + (if rows[n].ppid == ppid then [n] else []);
    }
  }
}
