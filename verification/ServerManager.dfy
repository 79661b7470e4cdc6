/**
 * The server manager (src/srvman.c): an event loop that forks children, tracks them in per-server
 * pid tables, reaps them, limits their number and decides which descriptors to poll. The kernel
 * (fork, waitpid, accept, select, signals) takes nondeterministic steps.
 */
module ServerManager {
  import opened Bytes

  const DEFAULT_PIDTAB_SIZE: nat := 64

  /** Number of used slots of a pid table. */
  function Used(tab: seq<nat>): nat {
    if tab == [] then 0 else Used(tab[..|tab| - 1]) + (if tab[|tab| - 1] != 0 then 1 else 0)
  }

  /** The pids held in a table. */
  function Pids(tab: seq<nat>): set<nat> { set i | 0 <= i < |tab| && tab[i] != 0 :: tab[i] }

  /** No pid occupies two slots. */
  predicate Distinct(tab: seq<nat>) {
    forall i, j :: 0 <= i < j < |tab| && tab[i] != 0 ==> tab[i] != tab[j]
  }

  lemma {:induction false} UsedUpdate(tab: seq<nat>, i: nat, p: nat)
    requires i < |tab|
    ensures Used(tab[i := p]) + (if tab[i] != 0 then 1 else 0) == Used(tab) + (if p != 0 then 1 else 0)
  {
    var last := |tab| - 1;
    if i < last {
      assert tab[i := p][..last] == tab[..last][i := p];
      UsedUpdate(tab[..last], i, p);
    } else {
      assert tab[i := p][..last] == tab[..last];
    }
  }

  lemma {:induction false} UsedZeros(tab: seq<nat>, n: nat)
    ensures Used(tab + seq(n, _ => 0)) == Used(tab)
  {
    var t := tab + seq(n, _ => 0);
    if n == 0 {
      assert t == tab;
    } else {
      assert t[..|t| - 1] == tab + seq(n - 1, _ => 0);
      UsedZeros(tab, n - 1);
    }
  }

  lemma UsedPositive(tab: seq<nat>, i: nat)
    requires i < |tab| && tab[i] != 0
    ensures Used(tab) > 0
  {
    UsedUpdate(tab, i, 0);
  }

  lemma {:induction false} NoneUsed(tab: seq<nat>)
    requires forall i :: 0 <= i < |tab| ==> tab[i] == 0
    ensures Used(tab) == 0
    decreases |tab|
  {
    if tab != [] {
      NoneUsed(tab[..|tab| - 1]);
    }
  }

  lemma PidsAt(tab: seq<nat>)
    ensures forall i :: 0 <= i < |tab| && tab[i] != 0 ==> tab[i] in Pids(tab)
  {
  }

  /** tab' is tab with the slot of pid cleared. */
  predicate OneCleared(tab: seq<nat>, tab': seq<nat>, pid: nat) {
    exists i :: 0 <= i < |tab| && tab[i] == pid && tab' == tab[i := 0]
  }

  function Sum(counts: seq<nat>): nat {
    if counts == [] then 0 else Sum(counts[..|counts| - 1]) + counts[|counts| - 1]
  }

  lemma {:induction false} NothingCounted(counts: seq<nat>)
    requires forall i :: 0 <= i < |counts| ==> counts[i] == 0
    ensures Sum(counts) == 0
    decreases |counts|
  {
    if counts != [] {
      NothingCounted(counts[..|counts| - 1]);
    }
  }

  lemma {:induction false} SumUpdate(counts: seq<nat>, i: nat, n: nat)
    requires i < |counts|
    ensures Sum(counts[i := n]) + counts[i] == Sum(counts) + n
  {
    var last := |counts| - 1;
    if i < last {
      assert counts[i := n][..last] == counts[..last][i := n];
      SumUpdate(counts[..last], i, n);
    } else {
      assert counts[i := n][..last] == counts[..last];
    }
  }

  lemma {:induction false} SumRemove(counts: seq<nat>, i: nat)
    requires i < |counts|
    ensures Sum(counts[..i] + counts[i + 1..]) + counts[i] == Sum(counts)
  {
    var last := |counts| - 1;
    var rest := counts[..i] + counts[i + 1..];
    if i < last {
      assert rest[..last - 1] == counts[..last][..i] + counts[..last][i + 1..];
      SumRemove(counts[..last], i);
    } else {
      assert rest == counts[..last];
    }
  }

  /** register_child on one table: first free slot, doubling a full table. */
  function Registered(tab: seq<nat>, pid: nat): seq<nat> {
    var i := FirstFree(tab, 0);
    if i < |tab| then tab[i := pid] else Grow(tab)[i := pid]
  }

  function FirstFree(tab: seq<nat>, i: nat): (k: nat)
    requires i <= |tab|
    ensures i <= k <= |tab| && (k < |tab| ==> tab[k] == 0)
    ensures forall j :: i <= j < k ==> tab[j] != 0
    decreases |tab| - i
  {
    if i == |tab| || tab[i] == 0 then i else FirstFree(tab, i + 1)
  }

  function Grow(tab: seq<nat>): (r: seq<nat>)
    ensures |r| > |tab| && r[..|tab|] == tab
  {
    tab + seq(if tab == [] then DEFAULT_PIDTAB_SIZE else |tab|, _ => 0)
  }

  /** A table has a free slot exactly when fewer of its slots are used than it has. */
  lemma {:induction false} AllUsed(tab: seq<nat>)
    ensures Used(tab) <= |tab|
    ensures Used(tab) == |tab| <==> forall i :: 0 <= i < |tab| ==> tab[i] != 0
    decreases |tab|
  {
    if tab != [] {
      AllUsed(tab[..|tab| - 1]);
    }
  }

  /**
   * Registering adds exactly the new pid, in one slot, and keeps every entry where it was. The table
   * grows only when it is full.
   */
  lemma RegisterAdds(tab: seq<nat>, pid: nat)
    requires pid != 0 && pid !in Pids(tab) && Distinct(tab)
    ensures var r := Registered(tab, pid);
            && Used(r) == Used(tab) + 1 && Pids(r) == Pids(tab) + {pid} && Distinct(r)
            && |r| == (if Used(tab) < |tab| then |tab| else if tab == [] then 64 else 2 * |tab|)
            && forall j :: 0 <= j < |tab| && tab[j] != 0 ==> r[j] == tab[j]
  {
    AllUsed(tab);
    hide Used, Pids, Distinct, Grow;
    var i := FirstFree(tab, 0);
    if i == |tab| {
      GrowAdds(tab);
      UsedUpdate(Grow(tab), i, pid);
      SlotSet(Grow(tab), i, pid);
    } else {
      UsedUpdate(tab, i, pid);
      SlotSet(tab, i, pid);
    }
  }

  /** Growing a table adds free slots only. */
  lemma GrowAdds(tab: seq<nat>)
    ensures var t := Grow(tab);
            && Used(t) == Used(tab) && Pids(t) == Pids(tab) && (Distinct(tab) ==> Distinct(t))
            && |t| == (if tab == [] then 64 else 2 * |tab|)
            && t[|tab|] == 0 && forall j :: 0 <= j < |tab| ==> t[j] == tab[j]
  {
    var t := Grow(tab);
    UsedZeros(tab, if tab == [] then DEFAULT_PIDTAB_SIZE else |tab|);
    assert forall j :: 0 <= j < |t| ==> t[j] == if j < |tab| then tab[j] else 0;
    assert Pids(t) == Pids(tab);
  }

  lemma SlotSet(t: seq<nat>, i: nat, pid: nat)
    requires i < |t| && t[i] == 0 && pid != 0 && pid !in Pids(t) && Distinct(t)
    ensures Pids(t[i := pid]) == Pids(t) + {pid} && Distinct(t[i := pid])
  {
    var r := t[i := pid];
    assert r[i] == pid;
    assert forall j :: 0 <= j < |t| && j != i ==> r[j] == t[j];
    forall p | p in Pids(t) + {pid}
      ensures p in Pids(r)
    {
      if p != pid {
        var j :| 0 <= j < |t| && t[j] != 0 && t[j] == p;
        assert r[j] == p;
      }
    }
  }

  /** Clearing the slot of a pid removes that pid and nothing else. */
  lemma SlotClear(t: seq<nat>, i: nat)
    requires i < |t| && t[i] != 0 && Distinct(t)
    ensures Pids(t[i := 0]) == Pids(t) - {t[i]} && Distinct(t[i := 0])
    ensures Used(t[i := 0]) + 1 == Used(t)
  {
    var r := t[i := 0];
    UsedUpdate(t, i, 0);
    assert forall j :: 0 <= j < |t| && j != i ==> r[j] == t[j];
    forall p | p in Pids(t) - {t[i]}
      ensures p in Pids(r)
    {
      var j :| 0 <= j < |t| && t[j] != 0 && t[j] == p;
      assert r[j] == p;
    }
  }

  lemma Bound(s: set<nat>) returns (m: nat)
    ensures m > 0 && m !in s && forall p :: p in s ==> p < m
  {
    m := 1;
    if s != {} {
      var p :| p in s;
      m := Bound(s - {p});
      m := if p >= m then p + 1 else m;
      assert forall q :: q in s ==> q == p || q in s - {p};
    }
  }

  ghost function CountsOf(ss: seq<Server>): (r: seq<nat>)
    reads ss`numChildren
    ensures |r| == |ss| && forall i :: 0 <= i < |ss| ==> r[i] == ss[i].numChildren
  {
    if ss == [] then [] else CountsOf(ss[..|ss| - 1]) + [ss[|ss| - 1].numChildren]
  }

  ghost function TabsOf(ss: seq<Server>): (r: seq<seq<nat>>)
    reads ss`pidtab
    ensures |r| == |ss| && forall i :: 0 <= i < |ss| ==> r[i] == ss[i].pidtab
  {
    if ss == [] then [] else TabsOf(ss[..|ss| - 1]) + [ss[|ss| - 1].pidtab]
  }

  lemma Shorter(ss: seq<Server>, k: nat)
    requires k < |ss|
    ensures |Without(ss, k)| < |ss|
  {
  }

  /** Of each server, its descriptor and whether it is busy. */
  ghost function FactsOf(ss: seq<Server>): (r: seq<(int, bool)>)
    reads ss`numChildren, ss`fd
    ensures |r| == |ss| && forall i :: 0 <= i < |ss| ==> r[i] == (ss[i].fd, ss[i].Busy())
  {
    if ss == [] then [] else FactsOf(ss[..|ss| - 1]) + [(ss[|ss| - 1].fd, ss[|ss| - 1].Busy())]
  }

  datatype Acceptance = Accepted | Interrupted | Refused

  /** What the outside world has been asked for, with its answer. */
  datatype Call =
    | Hooks(stops: bool)             // the idle hook
    | Accepts(fd: int, r: Acceptance)  // accept
    | Admits(ok: bool)                 // access lists and prefork hooks
    | Handles                          // the handler of a single-process server
    | Forks(pid: nat)                  // fork, 0 for a failure

  /** The descriptors on which accept was called. */
  function AcceptedOn(calls: seq<Call>): seq<int> {
    if calls == [] then []
    else
      var c := calls[|calls| - 1];
      AcceptedOn(calls[..|calls| - 1]) + (if c.Accepts? then [c.fd] else [])
  }

  lemma {:induction false} AcceptedOnMore(a: seq<Call>, b: seq<Call>)
    ensures AcceptedOn(a + b) == AcceptedOn(a) + AcceptedOn(b)
    decreases |b|
  {
    if b == [] {
      assert a + b == a;
    } else {
      var front, c := b[..|b| - 1], b[|b| - 1];
      assert (a + b)[..|a + b| - 1] == a + front && (a + b)[|a + b| - 1] == c;
      AcceptedOnMore(a, front);
      Assoc(AcceptedOn(a), AcceptedOn(front), if c.Accepts? then [c.fd] else []);
    }
  }

  /**
   * What serving a server that is ready and not busy amounts to: accept; for a connection the access
   * checks; and if these admit it, its handler or fork.
   */
  predicate Serving(calls: seq<Call>, fd: int, single: bool) {
    && calls != [] && calls[0].Accepts? && calls[0].fd == fd
    && if !calls[0].r.Accepted? then |calls| == 1
       else
         && |calls| >= 2 && calls[1].Admits?
         && if !calls[1].ok then |calls| == 2
            else |calls| == 3 && if single then calls[2].Handles? else calls[2].Forks?
  }

  lemma ServingAccepts(calls: seq<Call>, fd: int, single: bool)
    requires Serving(calls, fd, single)
    ensures AcceptedOn(calls) == [fd]
  {
    assert calls[..1] == [calls[0]] && AcceptedOn([]) == [] && AcceptedOn([calls[0]]) == [fd];
    if |calls| >= 2 {
      assert calls[..2][..1] == calls[..1] && calls[..2][1] == calls[1];
      assert AcceptedOn(calls[..2]) == AcceptedOn(calls[..1]) + [];
    }
    if |calls| == 3 {
      assert AcceptedOn(calls) == AcceptedOn(calls[..2]) + [];
    }
    assert calls[..|calls|] == calls;
  }

  /** The child that was forked, or 0. */
  function ChildOf(calls: seq<Call>): nat {
    if calls != [] && calls[|calls| - 1].Forks? then calls[|calls| - 1].pid else 0
  }

  /** A server that is ready is served unless it is busy or has no descriptor. */
  function ServedAt(fact: (int, bool), rdset: set<int>): seq<int> {
    if fact.0 in rdset && !fact.1 && fact.0 != -1 then [fact.0] else []
  }

  /** The descriptors on which a pass accepts: of the first n servers, in order, those that are served. */
  function ServedFds(facts: seq<(int, bool)>, rdset: set<int>, n: nat): seq<int>
    requires n <= |facts|
  {
    if n == 0 then [] else ServedFds(facts, rdset, n - 1) + ServedAt(facts[n - 1], rdset)
  }

  lemma ServedMore(a: seq<int>, facts: seq<(int, bool)>, rdset: set<int>, n: nat)
    requires n < |facts|
    ensures a + ServedFds(facts, rdset, n) + ServedAt(facts[n], rdset) == a + ServedFds(facts, rdset, n + 1)
  {
    Assoc(a, ServedFds(facts, rdset, n), ServedAt(facts[n], rdset));
  }

  lemma NoneServed(a: seq<int>, facts: seq<(int, bool)>, rdset: set<int>)
    ensures a == a + ServedFds(facts, rdset, 0)
  {
  }

  /** Among the first n servers, with their descriptors and whether they are busy, a busy one is ready. */
  predicate BusyReady(facts: seq<(int, bool)>, rdset: set<int>, n: nat)
    requires n <= |facts|
  {
    exists i :: 0 <= i < n && facts[i].1 && facts[i].0 in rdset
  }

  lemma BusyReadyNone(facts: seq<(int, bool)>, rdset: set<int>)
    ensures !BusyReady(facts, rdset, 0)
  {
  }

  lemma BusyReadyStep(facts: seq<(int, bool)>, rdset: set<int>, n: nat)
    requires n < |facts|
    ensures BusyReady(facts, rdset, n + 1) <==> BusyReady(facts, rdset, n) || (facts[n].1 && facts[n].0 in rdset)
  {
  }

  lemma TailApart(todo: seq<Server>, ss: seq<Server>)
    requires IsTail(todo, ss) && Unique(ss)
    ensures forall i :: 0 < i < |todo| ==> todo[i] != todo[0]
  {
    assert forall i :: 0 <= i < |todo| ==> todo[i] == ss[|ss| - |todo| + i];
  }

  lemma WithoutMembers(ss: seq<Server>, k: nat)
    requires k < |ss| && Unique(ss)
    ensures forall s :: s in Without(ss, k) ==> s in ss && s != ss[k]
  {
  }

  /** todo is the rest of ss from some point on. */
  ghost predicate IsTail(todo: seq<Server>, ss: seq<Server>) {
    |todo| <= |ss| && ss[|ss| - |todo|..] == todo
  }

  lemma TailLength(todo: seq<Server>, ss: seq<Server>)
    requires IsTail(todo, ss)
    ensures |todo| <= |ss|
  {
  }

  lemma TailHead(todo: seq<Server>, ss: seq<Server>)
    requires IsTail(todo, ss) && todo != []
    ensures var k := |ss| - |todo|;
            && ss[k] == todo[0] && (|todo| > 1 ==> ss[k + 1] == todo[1])
            && IsTail(todo[1..], ss) && IsTail(todo[1..], Without(ss, k)) && |Without(ss, k)| < |ss|
  {
    var k := |ss| - |todo|;
    assert ss[k..][1..] == ss[k + 1..];
    assert Without(ss, k)[k..] == ss[k + 1..];
  }

  /** Some table holds the pid. */
  predicate Listed(tabs: seq<seq<nat>>, pid: nat) { exists i :: 0 <= i < |tabs| && pid in Pids(tabs[i]) }

  /**
   * No pid occurs twice, in one table or in two, and the pids in use are those in the tables and the
   * lost ones.
   */
  predicate Apart(tabs: seq<seq<nat>>, used: set<nat>, lost: set<nat>) {
    && (forall i :: 0 <= i < |tabs| ==> Distinct(tabs[i]) && Pids(tabs[i]) <= used && Pids(tabs[i]) !! lost)
    && (forall i, j :: 0 <= i < j < |tabs| ==> Pids(tabs[i]) !! Pids(tabs[j]))
    && lost <= used && (forall pid :: pid in used ==> pid in lost || Listed(tabs, pid))
  }

  lemma ApartRegister(tabs: seq<seq<nat>>, used: set<nat>, lost: set<nat>, k: nat, pid: nat)
    requires Apart(tabs, used, lost) && k < |tabs| && pid != 0 && pid !in used
    ensures Apart(tabs[k := Registered(tabs[k], pid)], used + {pid}, lost)
    ensures Used(Registered(tabs[k], pid)) == Used(tabs[k]) + 1
  {
    hide Pids, Distinct, Used, Registered;
    RegisterAdds(tabs[k], pid);
    ListedStill(tabs, k, Registered(tabs[k], pid));
  }

  /** A table that changes: what is listed otherwise stays listed. */
  lemma ListedStill(tabs: seq<seq<nat>>, k: nat, tab: seq<nat>)
    requires k < |tabs|
    ensures forall pid :: pid in Pids(tab) ==> Listed(tabs[k := tab], pid)
    ensures forall pid :: Listed(tabs, pid) && pid !in Pids(tabs[k]) ==> Listed(tabs[k := tab], pid)
  {
    hide Pids;
    var tabs' := tabs[k := tab];
    forall pid | pid in Pids(tab)
      ensures Listed(tabs', pid)
    {
      assert pid in Pids(tabs'[k]);
    }
    forall pid | Listed(tabs, pid) && pid !in Pids(tabs[k])
      ensures Listed(tabs', pid)
    {
      var i :| 0 <= i < |tabs| && pid in Pids(tabs[i]);
      assert pid in Pids(tabs'[i]);
    }
  }

  lemma ApartClear(tabs: seq<seq<nat>>, used: set<nat>, lost: set<nat>, k: nat, i: nat)
    requires k < |tabs| && i < |tabs[k]| && tabs[k][i] !in used
    requires Apart(tabs, used + {tabs[k][i]}, lost) && tabs[k][i] != 0
    ensures Apart(tabs[k := tabs[k][i := 0]], used, lost)
    ensures Used(tabs[k][i := 0]) + 1 == Used(tabs[k])
    ensures forall j :: 0 <= j < |tabs| && tabs[k][i] in Pids(tabs[j]) ==> j == k
  {
    var pid := tabs[k][i];
    SlotClear(tabs[k], i);
    ListedStill(tabs, k, tabs[k][i := 0]);
    assert pid in Pids(tabs[k]);
    hide Pids, Distinct, Used;
    var tabs' := tabs[k := tabs[k][i := 0]];
    forall q | q in used
      ensures q in lost || Listed(tabs', q)
    {
      assert q in used + {pid} && q != pid;
      assert q in lost || Listed(tabs, q);
      if q in Pids(tabs[k]) {
        assert q in Pids(tabs[k][i := 0]);
      }
    }
  }

  lemma ApartForget(tabs: seq<seq<nat>>, used: set<nat>, lost: set<nat>, pid: nat)
    requires Apart(tabs, used + {pid}, lost) && pid !in used && !Listed(tabs, pid)
    ensures pid in lost && Apart(tabs, used, lost - {pid})
  {
    hide Pids, Distinct;
    assert forall i :: 0 <= i < |tabs| ==> pid !in Pids(tabs[i]);
  }

  lemma ApartAttach(tabs: seq<seq<nat>>, used: set<nat>, lost: set<nat>)
    requires Apart(tabs, used, lost)
    ensures Apart(tabs + [[]], used, lost)
  {
    assert Pids([]) == {};
    hide Pids;
    forall pid | Listed(tabs, pid)
      ensures Listed(tabs + [[]], pid)
    {
      var i :| 0 <= i < |tabs| && pid in Pids(tabs[i]);
      assert pid in Pids((tabs + [[]])[i]);
    }
  }

  lemma ApartRemove(tabs: seq<seq<nat>>, used: set<nat>, lost: set<nat>, k: nat)
    requires Apart(tabs, used, lost) && k < |tabs|
    ensures Apart(tabs[..k] + tabs[k + 1..], used, lost + Pids(tabs[k]))
  {
    hide Pids, Distinct;
    var tabs' := tabs[..k] + tabs[k + 1..];
    assert forall i :: 0 <= i < |tabs'| ==> tabs'[i] == tabs[if i < k then i else i + 1];
    forall pid | pid in used && pid !in lost + Pids(tabs[k])
      ensures Listed(tabs', pid)
    {
      var i :| 0 <= i < |tabs| && pid in Pids(tabs[i]);
      assert pid in Pids(tabs'[if i < k then i else i - 1]);
    }
  }

  /** A table has as many pids as used slots. */
  lemma {:induction false} PidCount(tab: seq<nat>)
    requires Distinct(tab)
    ensures |Pids(tab)| == Used(tab)
    decreases |tab|
  {
    if tab == [] {
      assert Pids(tab) == {};
    } else {
      var last := |tab| - 1;
      PidCount(tab[..last]);
      assert forall i :: 0 <= i < last ==> tab[..last][i] == tab[i];
      if tab[last] == 0 {
        assert Pids(tab) == Pids(tab[..last]);
      } else {
        LastPid(tab);
      }
    }
  }

  lemma LastPid(tab: seq<nat>)
    requires tab != [] && tab[|tab| - 1] != 0 && Distinct(tab)
    ensures var front := tab[..|tab| - 1];
            Pids(tab) == Pids(front) + {tab[|tab| - 1]} && tab[|tab| - 1] !in Pids(front)
  {
    var front, last := tab[..|tab| - 1], |tab| - 1;
    forall p | p in Pids(tab)
      ensures p in Pids(front) + {tab[last]}
    {
      var i :| 0 <= i < |tab| && tab[i] != 0 && tab[i] == p;
      assert i < last ==> front[i] == p;
    }
    assert tab[last] in Pids(tab);
    forall p | p in Pids(front)
      ensures p in Pids(tab)
    {
      var i :| 0 <= i < |front| && front[i] != 0 && front[i] == p;
      assert tab[i] == p;
    }
  }

  lemma OneTable(tabs: seq<seq<nat>>, used: set<nat>, lost: set<nat>, k: nat)
    requires Apart(tabs, used, lost) && k < |tabs|
    ensures |lost + Pids(tabs[k])| == |lost| + Used(tabs[k])
  {
    PidCount(tabs[k]);
  }

  /** There are no more pids in use than the tables have used slots and there are lost pids. */
  lemma {:induction false} ApartCount(tabs: seq<seq<nat>>, used: set<nat>, lost: set<nat>, counts: seq<nat>)
    requires Apart(tabs, used, lost) && |counts| == |tabs|
    requires forall i :: 0 <= i < |tabs| ==> counts[i] == Used(tabs[i])
    ensures |used| == Sum(counts) + |lost|
    decreases |tabs|
  {
    if tabs == [] {
      assert forall pid :: pid in used ==> pid in lost;
      assert used == lost;
    } else {
      var last := |tabs| - 1;
      ApartRemove(tabs, used, lost, last);
      assert tabs[..last] + tabs[last + 1..] == tabs[..last];
      PidCount(tabs[last]);
      ApartCount(tabs[..last], used, lost + Pids(tabs[last]), counts[..last]);
    }
  }

  /** struct smap_server. */
  class Server {
    var prev: Server?
    var next: Server?
    var fd: int
    const maxChildren: nat
    var numChildren: nat
    var pidtab: seq<nat>      // pidtab_size elements
    const singleProcess: bool

    constructor (fd: int, maxChildren: nat, singleProcess: bool)
      ensures this.fd == fd && this.maxChildren == maxChildren && this.singleProcess == singleProcess
      ensures numChildren == 0 && pidtab == [] && prev == null && next == null
    {
      prev, next := null, null;
      this.fd, this.maxChildren, this.singleProcess := fd, maxChildren, singleProcess;
      numChildren, pidtab := 0, [];
    }

    /** SERVER_BUSY */
    predicate Busy()
      reads this`numChildren
    {
      maxChildren != 0 && numChildren >= maxChildren
    }

    /** The counter is the number of used slots, and the limit is kept. */
    ghost predicate CounterOk()
      reads this`numChildren, this`pidtab
    {
      numChildren == Used(pidtab) && (maxChildren != 0 ==> numChildren <= maxChildren)
    }

    /** The table part of register_child. */
    method Register(pid: nat)
      modifies this`pidtab, this`numChildren
      ensures pidtab == Registered(old(pidtab), pid) && numChildren == old(numChildren) + 1
    {
      ghost var tab := pidtab;
      var i := 0;
      while i < |pidtab| && pidtab[i] != 0
        invariant i <= |tab| && pidtab == tab && FirstFree(tab, 0) == FirstFree(tab, i)
      {
        i := i + 1;
      }
      if i == |pidtab| {
        pidtab := Grow(pidtab);
      }
      pidtab := pidtab[i := pid];
      numChildren := numChildren + 1;
    }

    /** The inner loop of unregister_child. */
    method Find(pid: nat) returns (i: nat)
      ensures i <= |pidtab| && (i < |pidtab| ==> pidtab[i] == pid)
      ensures pid != 0 ==> (i < |pidtab| <==> pid in Pids(pidtab))
    {
      i := 0;
      while i < |pidtab| && pidtab[i] != pid
        invariant i <= |pidtab| && forall j :: 0 <= j < i ==> pidtab[j] != pid
      {
        i := i + 1;
      }
    }
  }

  /**
   * One select call: what it polls, the descriptors of the servers that could accept, those of all
   * attached servers, those of servers freed since the set was computed, whether it ever was, how
   * many children of freed servers the global counter still has, and its value.
   */
  datatype Poll = Poll(fdset: set<int>, maxfd: int, wanted: set<int>, attached: set<int>, freed: set<int>,
                       computed: bool, orphans: nat, children: nat)
  {
    predicate Covers() {
      wanted <= fdset && forall fd :: fd in wanted ==> fd <= maxfd
    }

    /** Only descriptors of attached servers are polled. */
    predicate Clean() { fdset <= attached }
  }

  /**
   * What a round of the loop comes to: a select with its result, a pause, or a break by the idle hook.
   * q is what a select would poll there.
   */
  datatype Kind = Polled(q: Poll, rc: int) | Paused(q: Poll) | Hooked(q: Poll)
  {
    /** The loop is left: by the hook, or because select failed and was not just interrupted. */
    predicate Breaks() { Hooked? || (Polled? && rc < -1) }
  }

  /** The select calls among these rounds. */
  function PolledIn(kinds: seq<Kind>): seq<Poll> {
    if kinds == [] then []
    else
      var k := kinds[|kinds| - 1];
      PolledIn(kinds[..|kinds| - 1]) + (if k.Polled? then [k.q] else [])
  }

  lemma PolledInMore(kinds: seq<Kind>, k: Kind)
    ensures PolledIn(kinds + [k]) == PolledIn(kinds) + (if k.Polled? then [k.q] else [])
  {
    assert (kinds + [k])[..|kinds|] == kinds;
  }

  /** struct srvman with srvman_param, the loop state of smap_srvman_run, and the kernel's processes. */
  class Manager {
    var head: Server?
    var tail: Server?
    var numChildren: nat
    const maxChildren: nat
    const singleProcess: bool
    var needCleanup: bool
    var stop: bool
    var recompute: bool
    var fdset: set<int>
    var maxfd: int
    var running: set<nat>   // children that have not exited
    var zombies: set<nat>   // children that have exited and not been waited for
    var closed: set<int>    // -1 and the descriptors that have been closed
    ghost var servers: seq<Server>
    ghost var orphaned: nat       // children that were counted in servers when those were freed
    ghost var lostPids: set<nat>  // pids of those children that have not been waited for
    ghost var peak: nat           // the largest value numChildren has had
    ghost var polls: seq<Poll>    // the select calls made
    ghost var calls: seq<Call>    // what passes over the servers have asked for
    ghost var computed: bool      // this run has computed fdset
    ghost var freed: set<int>     // descriptors of servers freed since it did

    /** The list from head to tail is servers, doubly linked. */
    ghost predicate Linked()
      reads this`head, this`tail, this`servers, servers`prev, servers`next
    {
      && Unique(servers)
      && (if servers == [] then head == null && tail == null
          else head == servers[0] && tail == servers[|servers| - 1]
               && servers[0].prev == null && servers[|servers| - 1].next == null)
      && (forall i :: 0 <= i < |servers| - 1 ==> servers[i].next == servers[i + 1])
      && (forall i :: 0 < i < |servers| ==> servers[i].prev == servers[i - 1])
    }

    ghost predicate Counted()
      reads this`servers, servers`numChildren, servers`pidtab
    {
      forall i :: 0 <= i < |servers| ==> servers[i].CounterOk()
    }

    /** Each counter is right, and the pid tables and the lost pids are disjoint and are the pids in use. */
    ghost predicate Tables(used: set<nat>)
      reads this`servers, this`lostPids, servers`numChildren, servers`pidtab
    {
      Counted() && Apart(TabsOf(servers), used, lostPids)
    }

    /** The global counter covers the attached servers and the children of freed ones. */
    ghost predicate Accounted()
      reads this`numChildren, this`orphaned, this`lostPids, this`peak, this`servers, servers`numChildren
    {
      numChildren == Sum(CountsOf(servers)) + orphaned && |lostPids| <= orphaned && numChildren <= peak
    }

    /** The invariant, while the kernel has handed out the pids in used. */
    ghost predicate ValidFor(used: set<nat>)
      reads this`head, this`tail, this`numChildren, this`orphaned, this`lostPids, this`peak, this`servers
      reads servers`prev, servers`next, servers`numChildren, servers`pidtab
    {
      Linked() && Tables(used) && Accounted()
    }

    ghost predicate Valid()
      reads this`head, this`tail, this`numChildren, this`orphaned, this`lostPids, this`peak, this`servers
      reads this`running, this`zombies
      reads servers`prev, servers`next, servers`numChildren, servers`pidtab
    {
      ValidFor(running + zombies) && running !! zombies && 0 !in running + zombies
    }

    /** Every attached server that is not busy is polled. */
    ghost predicate Covered()
      reads this`servers, this`fdset, this`maxfd, servers`numChildren, servers`fd
    {
      forall i :: 0 <= i < |servers| && !servers[i].Busy() ==> servers[i].fd in fdset && servers[i].fd <= maxfd
    }

    ghost function Fds(): set<int>
      reads this`servers, servers`fd
    {
      set i | 0 <= i < |servers| :: servers[i].fd
    }

    /** Each attached server has an open descriptor of its own, as smap_srvman_open leaves them. */
    ghost predicate Opened()
      reads this`servers, this`closed, servers`fd
    {
      && -1 in closed
      && (forall i :: 0 <= i < |servers| ==> servers[i].fd !in closed)
      && (forall i, j :: 0 <= i < j < |servers| ==> servers[i].fd != servers[j].fd)
    }

    /** What is polled belongs to attached servers and to those freed since the set was computed. */
    ghost predicate Tracked()
      reads this`servers, this`closed, this`freed, this`computed, this`fdset, servers`fd
    {
      Opened() && freed <= closed && (computed ==> freed <= fdset <= Fds() + freed)
    }

    /** The set has no closed descriptor, and none but of attached servers, just when none was freed. */
    lemma StaleExactly()
      requires Tracked() && computed
      ensures fdset <= Fds() <==> freed == {}
      ensures fdset * closed == {} <==> freed == {}
    {
      if fd :| fd in freed {
        assert fd in fdset * closed && fd !in Fds();
      }
    }

    constructor (maxChildren: nat, singleProcess: bool)
      ensures Valid() && servers == [] && orphaned == 0 && lostPids == {} && numChildren == 0 && peak == 0
      ensures polls == [] && calls == []
      ensures running == {} && zombies == {} && !needCleanup && !stop && recompute
      ensures closed == {-1} && freed == {} && !computed
      ensures this.maxChildren == maxChildren && this.singleProcess == singleProcess
    {
      head, tail, numChildren := null, null, 0;
      this.maxChildren, this.singleProcess := maxChildren, singleProcess;
      needCleanup, stop, recompute, fdset, maxfd := false, false, true, {}, 0;
      running, zombies, servers, orphaned, peak, polls, calls := {}, {}, [], 0, 0, [], [];
      closed, freed, computed, lostPids := {-1}, {}, false, {};
    }

    // ---- kernel steps ----

    /** A child that has exited and not been waited for means that a cleanup is due. */
    ghost predicate Signalled()
      reads this`zombies, this`needCleanup
    {
      zombies != {} ==> needCleanup
    }

    /** Any children exit; SIGCHLD asks for a cleanup. */
    method ChildrenExit()
      modifies this`running, this`zombies, this`needCleanup
      requires running !! zombies
      ensures running + zombies == old(running + zombies) && running !! zombies
      ensures old(needCleanup) ==> needCleanup
      ensures running != old(running) ==> needCleanup
      ensures running <= old(running)
      ensures old(running) == {} ==> needCleanup == old(needCleanup)
      ensures old(Signalled()) ==> Signalled()
    {
      var gone: set<nat> :| gone <= running;
      if gone != {} {
        running, zombies, needCleanup := running - gone, zombies + gone, true;
      }
      assert running + zombies == old(running + zombies);
    }

    /** fork in the parent: a fresh pid, or 0 for a failure. */
    method Fork() returns (pid: nat)
      modifies this`running, this`calls
      ensures calls == old(calls) + [Forks(pid)]
      ensures pid == 0 ==> running == old(running)
      ensures pid != 0 ==> pid !in old(running) + zombies && running == old(running) + {pid}
    {
      if * {
        calls := calls + [Forks(0)];
        return 0;
      }
      ghost var bound := Bound(running + zombies);
      pid :| pid != 0 && pid !in running + zombies;
      running := running + {pid};
      calls := calls + [Forks(pid)];
    }

    /** accept */
    method Accept(fd: int) returns (r: Acceptance)
      modifies this`calls
      ensures calls == old(calls) + [Accepts(fd, r)]
    {
      r :| true;
      calls := calls + [Accepts(fd, r)];
    }

    /** The idle hook; false if there is none. */
    method IdleHook() returns (stops: bool)
      modifies this`calls
      ensures calls == old(calls) + [Hooks(stops)]
    {
      stops :| true;
      calls := calls + [Hooks(stops)];
    }

    /** check_acl and the prefork hooks. */
    method Admit() returns (ok: bool)
      modifies this`calls
      ensures calls == old(calls) + [Admits(ok)]
    {
      ok :| true;
      calls := calls + [Admits(ok)];
    }

    /** The handler, called in this process. */
    method Handle()
      modifies this`calls
      ensures calls == old(calls) + [Handles]
    {
      calls := calls + [Handles];
    }

    /** waitpid(-1, &status, WNOHANG): any unreaped child, or 0. */
    method WaitPid() returns (pid: nat)
      requires 0 !in zombies
      modifies this`zombies
      ensures pid == 0 <==> old(zombies) == {}
      ensures pid == 0 ==> zombies == {}
      ensures pid != 0 ==> pid in old(zombies) && zombies == old(zombies) - {pid}
    {
      if zombies == {} {
        return 0;
      }
      pid :| pid in zombies;
      zombies := zombies - {pid};
    }

    // ---- pid tables ----

    /** The lists of servers and what else register and unregister do not touch. */
    twostate predicate SameList()
      reads this`head, this`tail, this`servers, this`orphaned, this`lostPids, servers`prev, servers`next
    {
      && servers == old(servers) && head == old(head) && tail == old(tail) && orphaned == old(orphaned)
      && lostPids == old(lostPids)
      && forall i :: 0 <= i < |servers| ==>
           servers[i].prev == old(servers[i].prev) && servers[i].next == old(servers[i].next)
    }

    twostate lemma LinkedStill()
      requires old(Linked()) && SameList()
      ensures Linked()
    {
    }

    /** A change to one table, with both counters in step, is all that happened to the lists. */
    twostate lemma TableChanged(k: nat)
      requires old(Linked() && Counted() && Accounted()) && SameList() && k < |servers|
      requires forall i :: 0 <= i < |servers| && i != k ==>
                 servers[i].numChildren == old(servers[i].numChildren) && servers[i].pidtab == old(servers[i].pidtab)
      requires servers[k].CounterOk()
      requires numChildren - servers[k].numChildren == old(numChildren - servers[k].numChildren)
      requires numChildren <= peak
      ensures Linked() && Counted() && Accounted()
      ensures TabsOf(servers) == old(TabsOf(servers))[k := servers[k].pidtab]
    {
      hide CountsOf, TabsOf, Sum, Used;
      SumUpdate(old(CountsOf(servers)), k, servers[k].numChildren);
      assert CountsOf(servers) == old(CountsOf(servers))[k := servers[k].numChildren];
      LinkedStill();
    }

    /** register_child, called right after fork for a server that is not busy. */
    method RegisterChild(srv: Server, pid: nat, ghost k: nat, ghost rest: set<nat>)
      requires ValidFor(rest) && k < |servers| && servers[k] == srv && !srv.Busy()
      requires pid != 0 && pid !in rest
      modifies this`numChildren, this`peak, srv`pidtab, srv`numChildren
      ensures ValidFor(rest + {pid})
      ensures srv.pidtab == Registered(old(srv.pidtab), pid)
      ensures srv.numChildren == old(srv.numChildren) + 1 && numChildren == old(numChildren) + 1
      ensures peak == if old(peak) < numChildren then numChildren else old(peak)
    {
      hide Linked, Apart, TabsOf, Used, Registered;
      Alone(k);
      ApartRegister(TabsOf(servers), rest, lostPids, k, pid);
      srv.Register(pid);
      numChildren := numChildren + 1;
      if peak < numChildren {
        peak := numChildren;
      }
      TableChanged(k);
    }

    lemma Alone(k: nat)
      requires Linked() && k < |servers|
      ensures forall i :: 0 <= i < |servers| && i != k ==> servers[i] != servers[k]
    {
    }

    /** The loops of unregister_child: the server and the slot that hold pid. */
    method FindChild(pid: nat) returns (srv: Server?, i: nat, ghost k: nat)
      requires Linked() && pid != 0
      ensures k <= |servers| && (srv == null <==> k == |servers|)
      ensures srv == null ==> forall j :: 0 <= j < |servers| ==> pid !in Pids(servers[j].pidtab)
      ensures srv != null ==> srv == servers[k] && i < |srv.pidtab| && srv.pidtab[i] == pid
    {
      hide Pids;
      srv := head;
      i, k := 0, 0;
      while srv != null
        invariant k <= |servers| && (if k < |servers| then srv == servers[k] else srv == null)
        invariant forall j :: 0 <= j < k ==> pid !in Pids(servers[j].pidtab)
        decreases |servers| - k
      {
        i := srv.Find(pid);
        if i < |srv.pidtab| {
          return;
        }
        srv := srv.next;
        k := k + 1;
      }
    }

    /** What unregister_child does to the server that holds pid in slot i. */
    method ClearSlot(srv: Server, i: nat, pid: nat, ghost k: nat, ghost rest: set<nat>)
      requires ValidFor(rest + {pid}) && pid !in rest && k < |servers| && servers[k] == srv
      requires i < |srv.pidtab| && srv.pidtab[i] == pid != 0
      modifies this`numChildren, srv`pidtab, srv`numChildren
      ensures ValidFor(rest)
      ensures srv.pidtab == old(srv.pidtab)[i := 0]
      ensures srv.numChildren == old(srv.numChildren) - 1 && numChildren == old(numChildren) - 1
    {
      hide Linked, Apart, TabsOf, Used;
      Alone(k);
      ApartClear(TabsOf(servers), rest, lostPids, k, i);
      CountPositive(k, i);
      srv.pidtab := srv.pidtab[i := 0];
      srv.numChildren := srv.numChildren - 1;
      numChildren := numChildren - 1;
      TableChanged(k);
    }

    /**
     * unregister_child for a pid just waited for, with the other pids in use given as rest. A pid
     * of a freed server is not found. rc asks for a new descriptor set: it is whether the server
     * was busy before its counter went down.
     */
    method UnregisterChild(pid: nat, ghost rest: set<nat>) returns (rc: bool, ghost k: nat)
      requires ValidFor(rest + {pid}) && pid != 0 && pid !in rest
      modifies this`numChildren, this`lostPids, servers`pidtab, servers`numChildren
      ensures ValidFor(rest)
      ensures k <= |servers|
      ensures k == |servers| ==> !rc && numChildren == old(numChildren)
      ensures k == |servers| ==> forall j :: 0 <= j < |servers| ==> pid !in old(Pids(servers[j].pidtab))
      ensures lostPids == (if k == |servers| then old(lostPids) - {pid} else old(lostPids))
      ensures k < |servers| ==>
                && rc == old(servers[k].Busy()) && numChildren == old(numChildren) - 1
                && servers[k].numChildren == old(servers[k].numChildren) - 1
                && OneCleared(old(servers[k].pidtab), servers[k].pidtab, pid)
      ensures forall j :: 0 <= j < |servers| && j != k ==>
                servers[j].pidtab == old(servers[j].pidtab) && servers[j].numChildren == old(servers[j].numChildren)
    {
      hide ValidFor, Pids;
      PartsOf(rest + {pid});
      var srv, i;
      srv, i, k := FindChild(pid);
      if srv == null {
        ForgetPid(pid, rest);
        return false, k;
      }
      Alone(k);
      rc := srv.Busy();
      ClearSlot(srv, i, pid, k, rest);
    }

    lemma PartsOf(used: set<nat>)
      requires ValidFor(used)
      ensures Linked()
    {
    }

    /** A pid that no table holds is a lost one. */
    ghost method ForgetPid(pid: nat, used: set<nat>)
      requires ValidFor(used + {pid}) && pid !in used
      requires forall j :: 0 <= j < |servers| ==> pid !in Pids(servers[j].pidtab)
      modifies this`lostPids
      ensures ValidFor(used) && lostPids == old(lostPids) - {pid}
    {
      hide Pids, Sum, Linked;
      ApartForget(TabsOf(servers), used, lostPids, pid);
      lostPids := lostPids - {pid};
    }

    lemma CountPositive(k: nat, i: nat)
      requires Accounted() && k < |servers| && servers[k].CounterOk()
      requires i < |servers[k].pidtab| && servers[k].pidtab[i] != 0
      ensures 0 < servers[k].numChildren <= numChildren
    {
      UsedPositive(servers[k].pidtab, i);
      SumUpdate(CountsOf(servers), k, 0);
    }

    ghost function BusyServers(): set<Server>
      reads this`servers, servers`numChildren
    {
      set s | s in servers && s.Busy()
    }

    /** Counters have only gone down, and rc says whether a server stopped being busy. */
    twostate predicate Released(rc: bool)
      reads this`servers, this`numChildren, servers`numChildren
    {
      && servers == old(servers) && numChildren <= old(numChildren)
      && BusyServers() <= old(BusyServers())
      && (rc <==> BusyServers() != old(BusyServers()))
    }

    /** One round of children_cleanup: wait for a child and unregister it. */
    method ReapOne() returns (more: bool, rc: bool)
      requires Valid()
      modifies this`numChildren, this`lostPids, this`zombies, servers`pidtab, servers`numChildren
      ensures Valid() && Released(rc)
      ensures more ==> |running + zombies| < old(|running + zombies|)
      ensures !more ==> zombies == {} && !rc && running + zombies == old(running + zombies)
    {
      hide ValidFor, BusyServers, Released, Pids, Server.CounterOk;
      ghost var z := zombies;
      CountedNow();
      var pid := WaitPid();
      if pid == 0 {
        rc := false;
        NothingReleased();
        return false, rc;
      }
      Reaped(running, z, pid);
      rc := UnregisterReaped(pid);
      ReleasedIf(rc);
      more := true;
    }

    twostate lemma ReleasedIf(rc: bool)
      requires servers == old(servers) && numChildren <= old(numChildren)
      requires BusyServers() <= old(BusyServers()) && (rc <==> BusyServers() != old(BusyServers()))
      ensures Released(rc)
    {
    }

    /** A child has been waited for: it is taken out of its table, if its server is still attached. */
    method UnregisterReaped(pid: nat) returns (rc: bool)
      requires ValidFor(running + zombies + {pid}) && pid != 0 && pid !in running + zombies
      requires forall i :: 0 <= i < |servers| ==> servers[i].CounterOk()
      modifies this`numChildren, this`lostPids, servers`pidtab, servers`numChildren
      ensures ValidFor(running + zombies) && servers == old(servers) && numChildren <= old(numChildren)
      ensures BusyServers() <= old(BusyServers()) && (rc <==> BusyServers() != old(BusyServers()))
    {
      hide ValidFor, BusyServers, OneCleared, Pids, Server.CounterOk;
      ghost var k;
      rc, k := UnregisterChild(pid, running + zombies);
      ReleasedOne(k);
    }

    /** Between two waits, more children may exit. */
    method ExitStep()
      requires Valid()
      modifies this`running, this`zombies, this`needCleanup
      ensures Valid() && running + zombies == old(running + zombies) && running <= old(running)
      ensures old(Signalled()) ==> Signalled()
    {
      hide ValidFor;
      ChildrenExit();
    }

    twostate lemma NothingReleased()
      requires servers == old(servers) && numChildren == old(numChildren)
      requires forall s :: s in servers ==> s.numChildren == old(s.numChildren)
      ensures Released(false)
    {
      assert forall i :: 0 <= i < |servers| ==> servers[i] in servers;
    }

    twostate lemma ReleasedOne(k: nat)
      requires servers == old(servers) && numChildren <= old(numChildren) && k <= |servers|
      requires k < |servers| ==> servers[k].numChildren == old(servers[k].numChildren) - 1
      requires k < |servers| ==> old(servers[k].CounterOk())
      requires forall j :: 0 <= j < |servers| && j != k ==> servers[j].numChildren == old(servers[j].numChildren)
      ensures Released(k < |servers| && old(servers[k].Busy()))
    {
      hide Used;
      if k < |servers| && old(servers[k].Busy()) {
        assert servers[k] in old(BusyServers()) && servers[k] !in BusyServers();
      }
    }

    lemma CountedNow()
      requires Valid()
      ensures forall i :: 0 <= i < |servers| ==> servers[i].CounterOk()
    {
    }

    /**
     * children_cleanup: every child that had exited is waited for. Others may exit meanwhile, and
     * also after the last wait, which makes another cleanup due.
     */
    method ChildrenCleanup() returns (rc: bool)
      requires Valid()
      modifies this`numChildren, this`lostPids, this`running, this`zombies, this`needCleanup
      modifies servers`pidtab, servers`numChildren
      ensures Valid() && Signalled() && Released(rc)
      ensures running + zombies <= old(running)
      ensures running + zombies == {} ==> numChildren == orphaned
    {
      hide Valid, BusyServers, Released;
      ghost var busy, n := BusyServers(), numChildren;
      rc := false;
      var more := true;
      while more
        invariant Valid() && BusyServers() <= busy && (rc <==> BusyServers() != busy) && numChildren <= n
        invariant !more ==> zombies == {}
        invariant running <= old(running)
        decreases |running + zombies| + (if more then 1 else 0)
      {
        ExitStep();
        more, rc := ReapMore(rc, busy, n);
      }
      ReleasedIf(rc);
      if running == {} {
        OnlyOrphans();
      }
      ExitStep();
    }

    /** One round, when the busy servers were busy and there were n children at first. */
    method ReapMore(rc0: bool, ghost busy: set<Server>, ghost n: nat) returns (more: bool, rc: bool)
      requires Valid() && BusyServers() <= busy && (rc0 <==> BusyServers() != busy) && numChildren <= n
      modifies this`numChildren, this`lostPids, this`zombies, servers`pidtab, servers`numChildren
      ensures Valid() && BusyServers() <= busy && (rc <==> BusyServers() != busy) && numChildren <= n
      ensures more ==> |running + zombies| < old(|running + zombies|)
      ensures !more ==> zombies == {} && running + zombies == old(running + zombies)
    {
      hide Valid, BusyServers;
      more, rc := ReapOne();
      rc := rc0 || rc;
    }

    /** Without a child left, all that is counted are children of freed servers. */
    lemma OnlyOrphans()
      requires Valid() && running == {} && zombies == {}
      ensures numChildren == orphaned
    {
      hide Linked, Sum, Used;
      forall i | 0 <= i < |servers|
        ensures servers[i].numChildren == 0
      {
        assert TabsOf(servers)[i] == servers[i].pidtab;
        PidsAt(servers[i].pidtab);
        NoneUsed(servers[i].pidtab);
      }
      NothingCounted(CountsOf(servers));
    }

    lemma Reaped(r: set<nat>, z: set<nat>, pid: nat)
      requires pid in z && r !! z
      ensures r + (z - {pid}) + {pid} == r + z && r !! z - {pid}
      ensures |r + (z - {pid})| < |r + z|
    {
      assert r + (z - {pid}) == (r + z) - {pid};
    }

    // ---- the list of servers ----

    /** smap_srvman_attach_server */
    method AttachServer(srv: Server)
      requires Linked() && srv !in servers
      modifies this`head, this`tail, this`servers, servers`next, srv`prev, srv`next
      ensures Linked() && servers == old(servers) + [srv]
    {
      srv.next := null;
      srv.prev := tail;
      if tail != null {
        tail.next := srv;
      } else {
        head := srv;
      }
      tail := srv;
      servers := servers + [srv];
    }

    /** Attaching a new server keeps the invariant. */
    twostate lemma AttachedStill(srv: Server)
      requires old(Valid()) && Linked() && servers == old(servers) + [srv]
      requires running == old(running) && zombies == old(zombies)
      requires numChildren == old(numChildren) && orphaned == old(orphaned) && peak == old(peak)
      requires lostPids == old(lostPids)
      requires srv.numChildren == 0 && srv.pidtab == []
      requires forall s :: s in old(servers) ==> s.numChildren == old(s.numChildren) && s.pidtab == old(s.pidtab)
      ensures Valid()
    {
      hide Linked, Sum, Used, Apart, TabsOf, CountsOf;
      assert CountsOf(servers) == old(CountsOf(servers)) + [0];
      assert TabsOf(servers) == old(TabsOf(servers)) + [[]];
      AttachedSums(old(CountsOf(servers)));
      AttachedUsed();
      ApartAttach(old(TabsOf(servers)), running + zombies, lostPids);
    }

    lemma AttachedSums(counts: seq<nat>)
      ensures Sum(counts + [0]) == Sum(counts)
    {
      assert (counts + [0])[..|counts|] == counts;
    }

    lemma AttachedUsed()
      ensures Used([]) == 0
    {
    }

    /** server_remove */
    method ServerRemove(srv: Server, ghost k: nat)
      requires Linked() && k < |servers| && servers[k] == srv
      modifies this`head, this`tail, this`servers, servers`prev, servers`next
      ensures Linked() && servers == Without(old(servers), k)
    {
      hide Unique, Without;
      UniqueWithout(servers, k);
      WithoutAt(servers, k);
      OthersDiffer(servers, k);
      if k > 0 {
        OthersDiffer(servers, k - 1);
      }
      if k + 1 < |servers| {
        OthersDiffer(servers, k + 1);
      }
      assert servers[k].prev == (if k == 0 then null else servers[k - 1]);
      assert servers[k].next == (if k == |servers| - 1 then null else servers[k + 1]);
      if srv.prev != null {
        srv.prev.next := srv.next;
      } else {
        head := srv.next;
      }
      if srv.next != null {
        srv.next.prev := srv.prev;
      } else {
        tail := srv.prev;
      }
      servers := Without(servers, k);
    }

    /**
     * smap_server_free: the global counter keeps the children of the freed server. fd is the
     * descriptor that the server had.
     */
    method ServerFree(srv: Server, ghost k: nat, ghost fd: int)
      requires Valid() && k < |servers| && servers[k] == srv
      modifies this`head, this`tail, this`servers, this`orphaned, this`lostPids, this`freed, servers`prev, servers`next
      ensures Valid() && servers == Without(old(servers), k)
      ensures forall s :: s in servers ==> s in old(servers) && s != srv
      ensures orphaned == old(orphaned) + srv.numChildren && freed == old(freed) + {fd}
      ensures lostPids == old(lostPids) + Pids(srv.pidtab)
    {
      hide Valid, Linked, Without, Unique;
      ListOf();
      NoTwice();
      WithoutMembers(servers, k);
      ServerRemove(srv, k);
      orphaned := orphaned + srv.numChildren;
      lostPids := lostPids + Pids(srv.pidtab);
      freed := freed + {fd};
      RemovedStill(k);
    }

    lemma NoTwice()
      requires Linked()
      ensures Unique(servers)
    {
    }

    /** Taking a server off the list, children and all, keeps the invariant. */
    twostate lemma RemovedStill(k: nat)
      requires old(Valid()) && Linked() && k < |old(servers)|
      requires servers == Without(old(servers), k)
      requires running == old(running) && zombies == old(zombies)
      requires numChildren == old(numChildren) && peak == old(peak)
      requires orphaned == old(orphaned) + old(servers[k].numChildren)
      requires lostPids == old(lostPids) + old(Pids(servers[k].pidtab))
      requires forall s :: s in old(servers) ==> s.numChildren == old(s.numChildren) && s.pidtab == old(s.pidtab)
      ensures Valid()
    {
      hide Linked, Sum, Used, Apart, TabsOf, CountsOf;
      var tabs, counts := old(TabsOf(servers)), old(CountsOf(servers));
      SumRemove(counts, k);
      ApartRemove(tabs, running + zombies, old(lostPids), k);
      OneTable(tabs, running + zombies, old(lostPids), k);
      assert TabsOf(servers) == tabs[..k] + tabs[k + 1..];
      assert CountsOf(servers) == counts[..k] + counts[k + 1..];
    }

    /** smap_server_shutdown */
    method ServerShutdown(srv: Server)
      modifies srv`fd, this`closed
      ensures srv.fd == -1
      ensures closed == old(closed) + (if old(srv.fd) == -1 then {} else {old(srv.fd)})
    {
      if srv.fd == -1 {
        return;
      }
      closed := closed + {srv.fd};
      srv.fd := -1;
    }

    /** A server whose descriptor was polled has been freed, and that descriptor is closed. */
    twostate lemma TrackedFreed(k: nat)
      requires old(Tracked()) && k < |old(servers)| && servers == Without(old(servers), k)
      requires forall s :: s in servers ==> s.fd == old(s.fd)
      requires freed == old(freed) + {old(servers[k].fd)} && closed == old(closed) + {old(servers[k].fd)}
      requires fdset == old(fdset) && computed == old(computed) && old(servers[k].fd) in fdset
      ensures Tracked()
    {
      var was, fd := old(servers), old(servers[k].fd);
      assert forall i :: 0 <= i < |servers| ==> servers[i] in servers;
      assert forall i :: 0 <= i < |servers| ==> servers[i] == was[if i < k then i else i + 1];
      forall x | x in old(Fds()) && x != fd
        ensures x in Fds()
      {
        var i :| 0 <= i < |was| && old(was[i].fd) == x;
        assert servers[if i < k then i else i - 1] == was[i];
      }
    }

    /** compute_fdset: exactly the descriptors of the servers that are not busy. */
    method ComputeFdset()
      requires Linked()
      modifies this`fdset, this`maxfd, this`computed, this`freed
      ensures Covered() && computed && freed == {}
      ensures fdset == Wanted() && (maxfd == 0 || maxfd in fdset)
    {
      hide WantedTo;
      WantedNone();
      var p := head;
      maxfd := 0;
      fdset := {};
      ghost var k := 0;
      while p != null
        invariant k <= |servers| && (if k < |servers| then p == servers[k] else p == null)
        invariant fdset == WantedTo(k)
        invariant forall fd :: fd in fdset ==> fd <= maxfd
        invariant maxfd == 0 || maxfd in fdset
        decreases |servers| - k
      {
        WantedStep(k);
        if !p.Busy() {
          fdset := fdset + {p.fd};
          if p.fd > maxfd {
            maxfd := p.fd;
          }
        }
        p := p.next;
        k := k + 1;
      }
      computed, freed := true, {};
      CoveredByWanted();
    }

    ghost function WantedTo(k: nat): set<int>
      reads this`servers, servers`numChildren, servers`fd
      requires k <= |servers|
    {
      set i | 0 <= i < k && !servers[i].Busy() :: servers[i].fd
    }

    lemma WantedNone()
      ensures WantedTo(0) == {}
    {
    }

    lemma WantedStep(k: nat)
      requires k < |servers|
      ensures WantedTo(k + 1) == WantedTo(k) + if servers[k].Busy() then {} else {servers[k].fd}
    {
    }

    lemma CoveredByWanted()
      requires fdset == Wanted() && forall fd :: fd in fdset ==> fd <= maxfd
      ensures Covered()
    {
      forall i | 0 <= i < |servers| && !servers[i].Busy()
        ensures servers[i].fd in Wanted()
      {
      }
    }

    lemma JustComputed()
      requires Opened() && computed && freed == {} && fdset == Wanted()
      ensures Tracked()
    {
    }

    /** Descriptors of the attached servers that could accept a connection. */
    ghost function Wanted(): set<int>
      reads this`servers, servers`numChildren, servers`fd
    {
      WantedTo(|servers|)
    }

    // ---- accepting connections ----

    /**
     * server_run in the parent: access control and hooks, then the handler, or one fork, whose child
     * is registered.
     */
    method ServerRun(srv: Server, ghost k: nat) returns (ghost made: seq<Call>)
      requires Valid() && k < |servers| && servers[k] == srv && !srv.Busy()
      modifies this`running, this`numChildren, this`peak, this`calls, srv`pidtab, srv`numChildren
      ensures Valid() && calls == old(calls) + made
      ensures made != [] && made[0].Admits?
      ensures if !made[0].ok then |made| == 1
              else |made| == 2 && if singleProcess || srv.singleProcess then made[1].Handles? else made[1].Forks?
      ensures var pid := ChildOf(made);
              if pid == 0
              then running == old(running) && srv.pidtab == old(srv.pidtab) && numChildren == old(numChildren)
              else running == old(running) + {pid} && srv.pidtab == Registered(old(srv.pidtab), pid)
                   && numChildren == old(numChildren) + 1
      ensures srv.numChildren == old(srv.numChildren) + numChildren - old(numChildren)
      ensures peak <= old(peak) || peak == numChildren
    {
      hide Linked, Tables, Accounted;
      var ok := Admit();
      made := [Admits(ok)];
      if !ok {
        return;
      }
      if singleProcess || srv.singleProcess {
        Handle();
        made := made + [Handles];
        return;
      }
      var pid := Fork();
      made := made + [Forks(pid)];
      if pid != 0 {
        Forked(old(running), running, zombies, pid);
        RegisterChild(srv, pid, k, old(running + zombies));
      }
    }

    lemma Forked(before: set<nat>, after: set<nat>, z: set<nat>, pid: nat)
      requires after == before + {pid} && pid !in before + z
      ensures after + z == before + z + {pid}
    {
    }

    /** Attached servers have kept their descriptors and lost no children. */
    twostate predicate Grown()
      requires forall s :: s in servers ==> s in old(servers)
      reads this`servers, servers`numChildren, servers`fd
    {
      forall s :: s in servers ==> s.fd == old(s.fd) && s.numChildren >= old(s.numChildren)
    }

    /**
     * server_accept: rc asks for a new descriptor set, exactly when the server has been freed or was
     * busy. No other server is freed.
     */
    method ServerAccept(srv: Server, ghost k: nat) returns (rc: bool, ghost made: seq<Call>)
      requires Valid() && k < |servers| && servers[k] == srv
      modifies this`head, this`tail, this`servers, this`orphaned, this`lostPids, this`running, this`numChildren
      modifies this`peak, this`calls, this`closed, this`freed
      modifies servers`prev, servers`next, srv`fd, srv`pidtab, srv`numChildren
      ensures Valid() && calls == old(calls) + made
      ensures if old(srv.fd) == -1 || old(srv.Busy()) then made == []
              else Serving(made, old(srv.fd), singleProcess || srv.singleProcess)
      ensures servers == if old(srv.fd) == -1 || (made != [] && made[0].Accepts? && made[0].r.Refused?)
                         then Without(old(servers), k) else old(servers)
      ensures numChildren == old(numChildren) + if ChildOf(made) == 0 then 0 else 1
      ensures ChildOf(made) != 0 ==> srv.pidtab == Registered(old(srv.pidtab), ChildOf(made))
      ensures (forall s :: s in servers ==> s in old(servers)) && Grown()
      ensures rc <==> servers != old(servers) || old(srv.Busy())
      ensures freed == old(freed) + if servers == old(servers) then {} else {old(srv.fd)}
      ensures old(Tracked()) && old(srv.fd) in fdset ==> Tracked()
      ensures peak <= old(peak) || peak == numChildren
      ensures orphaned >= old(orphaned)
    {
      hide Linked, Tables, Accounted, Without, Tracked, Opened;
      rc, made := false, [];
      ghost var fd := srv.fd;
      Shorter(servers, k);
      if srv.fd == -1 {
        NoDescriptor(k);
        ServerFree(srv, k, fd);
        rc := true;
        return;
      }
      if srv.Busy() {
        rc := true;
        return;
      }
      var conn := Accept(srv.fd);
      made := [Accepts(fd, conn)];
      if conn != Accepted {
        if conn != Interrupted {
          AcceptFailed(srv, k);
          rc := true;
        }
        return;
      }
      ghost var rest := ServerRun(srv, k);
      made := made + rest;
    }

    /** accept has failed: the server's descriptor is closed and the server is freed. */
    method AcceptFailed(srv: Server, ghost k: nat)
      requires Valid() && k < |servers| && servers[k] == srv && srv.fd != -1
      modifies this`head, this`tail, this`servers, this`orphaned, this`lostPids, this`closed, this`freed
      modifies servers`prev, servers`next, srv`fd
      ensures Valid() && servers == Without(old(servers), k)
      ensures (forall s :: s in servers ==> s in old(servers) && s != srv) && Grown()
      ensures freed == old(freed) + {old(srv.fd)} && closed == old(closed) + {old(srv.fd)}
      ensures old(Tracked()) && old(srv.fd) in fdset ==> Tracked()
      ensures orphaned >= old(orphaned)
    {
      hide Linked, Tables, Accounted, Without, Tracked;
      ghost var fd := srv.fd;
      ServerShutdown(srv);
      ServerFree(srv, k, fd);
      if old(Tracked()) && fd in fdset {
        TrackedFreed(k);
      }
    }

    lemma NoDescriptor(k: nat)
      requires k < |servers| && servers[k].fd == -1
      ensures !Tracked()
    {
    }

    /** What the servers were before a pass: descriptor and number of children. */
    ghost function Snapshot(): map<Server, (int, nat)>
      reads this`servers, servers`numChildren, servers`fd
    {
      map s | s in servers :: (s.fd, s.numChildren)
    }

    /** Every attached server was there, with the same descriptor and no more children. */
    ghost predicate GrownFrom(snap: map<Server, (int, nat)>)
      reads this`servers, servers`numChildren, servers`fd
    {
      forall s :: s in servers ==> s in snap && s.fd == snap[s].0 && s.numChildren >= snap[s].1
    }

    /** One round of connection_loop, at the head of what remains to be visited. */
    method Visit(srv: Server, rdset: set<int>, ghost todo: seq<Server>, ghost snap: map<Server, (int, nat)>)
      returns (rc: bool, next: Server?)
      requires Valid() && GrownFrom(snap) && IsTail(todo, servers) && todo != [] && srv == todo[0]
      modifies this`head, this`tail, this`servers, this`orphaned, this`lostPids, this`running, this`numChildren
      modifies this`peak, this`calls, this`closed, this`freed
      modifies servers`prev, servers`next, srv`fd, srv`pidtab, srv`numChildren
      ensures Valid() && GrownFrom(snap) && IsTail(todo[1..], servers) && |servers| <= |old(servers)|
      ensures next == if |todo| == 1 then null else todo[1]
      ensures rc <==> |servers| < |old(servers)| || (old(srv.fd) in rdset && old(srv.Busy()))
      ensures |servers| == |old(servers)| ==> freed == old(freed)
      ensures |servers| < |old(servers)| ==> freed == old(freed) + {old(srv.fd)}
      ensures old(Tracked()) && rdset <= fdset ==> Tracked()
      ensures forall i :: 0 < i < |todo| ==>
                todo[i].fd == old(todo[i].fd) && todo[i].numChildren == old(todo[i].numChildren)
      ensures numChildren <= old(numChildren) + 1
      ensures peak <= old(peak) || peak == numChildren
      ensures orphaned >= old(orphaned)
      ensures AcceptedOn(calls) == AcceptedOn(old(calls)) + ServedAt((old(srv.fd), old(srv.Busy())), rdset)
      ensures old(calls) <= calls
    {
      hide Valid, Without, IsTail, Tracked;
      assert Unique(servers) by {
        ListOf();
      }
      TailApart(todo, servers);
      assert Linked() && |todo| <= |servers| by {
        TailLength(todo, servers);
        ListOf();
      }
      ghost var k := |servers| - |todo|;
      TailHead(todo, servers);
      Successor(k);
      next := srv.next;
      rc := false;
      assert AcceptedOn(old(calls)) + [] == AcceptedOn(old(calls));
      if srv.fd in rdset {
        ghost var fd, made := srv.fd, [];
        rc, made := ServerAccept(srv, k);
        AcceptedOnMore(old(calls), made);
        if made != [] {
          ServingAccepts(made, fd, singleProcess || srv.singleProcess);
        }
      }
    }

    /** A pass that started with the servers was has still to visit todo; so far the answer is rc. */
    ghost predicate Passing(was: seq<Server>, facts: seq<(int, bool)>, rdset: set<int>,
                            snap: map<Server, (int, nat)>, todo: seq<Server>, rc: bool)
      reads this`head, this`tail, this`numChildren, this`orphaned, this`lostPids, this`peak, this`servers
      reads this`running, this`zombies
      reads servers`prev, servers`next, servers`numChildren, servers`pidtab, servers`fd, todo`fd, todo`numChildren
    {
      && Valid() && GrownFrom(snap) && IsTail(todo, servers)
      && |todo| <= |was| == |facts| && |servers| <= |was| && snap.Keys == (set s | s in was)
      && (forall i :: 0 <= i < |todo| ==> facts[|was| - |todo| + i] == (todo[i].fd, todo[i].Busy()))
      && (rc <==> |servers| < |was| || BusyReady(facts, rdset, |was| - |todo|))
    }

    lemma StartPassing(rdset: set<int>)
      requires Valid()
      ensures Passing(servers, FactsOf(servers), rdset, Snapshot(), servers, false)
      ensures head == if servers == [] then null else servers[0]
    {
      StartPass();
      BusyReadyNone(FactsOf(servers), rdset);
    }

    lemma EndPassing(was: seq<Server>, facts: seq<(int, bool)>, rdset: set<int>, snap: map<Server, (int, nat)>,
                     rc: bool)
      requires Passing(was, facts, rdset, snap, [], rc)
      ensures Valid() && GrownFrom(snap) && |servers| <= |was| == |facts|
      ensures rc <==> |servers| < |was| || BusyReady(facts, rdset, |was|)
    {
    }

    /** One turn of connection_loop. */
    method Turn(srv: Server, rdset: set<int>, rc0: bool, ghost was: seq<Server>, ghost facts: seq<(int, bool)>,
                ghost snap: map<Server, (int, nat)>, ghost todo: seq<Server>)
      returns (rc: bool, next: Server?)
      requires Passing(was, facts, rdset, snap, todo, rc0) && todo != [] && srv == todo[0]
      requires forall i :: 0 <= i < |servers| ==> servers[i] in was
      modifies this`head, this`tail, this`servers, this`orphaned, this`lostPids, this`running, this`numChildren
      modifies this`peak, this`calls, this`closed, this`freed
      modifies servers`prev, servers`next, srv`fd, srv`pidtab, srv`numChildren
      ensures Passing(was, facts, rdset, snap, todo[1..], rc)
      ensures next == if |todo| == 1 then null else todo[1]
      ensures (next != null ==> next in was) && forall i :: 0 <= i < |servers| ==> servers[i] in was
      ensures |servers| <= |old(servers)| && (freed != old(freed) ==> |servers| < |old(servers)|)
      ensures old(Tracked()) && rdset <= fdset ==> Tracked()
      ensures numChildren <= old(numChildren) + 1
      ensures peak <= old(peak) || peak == numChildren
      ensures orphaned >= old(orphaned)
      ensures AcceptedOn(calls) == AcceptedOn(old(calls)) + ServedAt(facts[|was| - |todo|], rdset)
      ensures old(calls) <= calls
    {
      hide Valid, IsTail, Tracked, BusyReady, GrownFrom, CountsOf, TabsOf;
      ghost var n := |was| - |todo|;
      BusyReadyStep(facts, rdset, n);
      assert facts[n + 0] == (srv.fd, srv.Busy());
      TailHead(todo, servers);
      rc, next := Visit(srv, rdset, todo, snap);
      rc := rc0 || rc;
      StillFrom(snap);
      assert forall i :: 0 <= i < |todo| - 1 ==> todo[1..][i] == todo[i + 1];
    }

    /**
     * connection_loop: one pass over the servers, with at most one new child for each. The next
     * server is fetched before the current one may be freed. rc asks for a new descriptor set,
     * exactly when a server has been freed or a busy one was ready.
     */
    method ConnectionLoop(rdset: set<int>) returns (rc: bool)
      requires Valid()
      modifies this`head, this`tail, this`servers, this`orphaned, this`lostPids, this`running, this`numChildren
      modifies this`peak, this`calls, this`closed, this`freed, servers
      ensures Valid() && GrownFrom(old(Snapshot()))
      ensures |servers| <= |old(servers)|
      ensures rc <==> |servers| < |old(servers)| || BusyReady(old(FactsOf(servers)), rdset, |old(servers)|)
      ensures freed != old(freed) ==> |servers| < |old(servers)|
      ensures old(Tracked()) && rdset <= fdset ==> Tracked()
      ensures numChildren <= old(numChildren) + |old(servers)|
      ensures peak <= old(peak) || peak <= old(numChildren) + |old(servers)|
      ensures orphaned >= old(orphaned)
      ensures AcceptedOn(calls) == AcceptedOn(old(calls)) + ServedFds(old(FactsOf(servers)), rdset, |old(servers)|)
      ensures old(calls) <= calls
    {
      hide Valid, Snapshot, Tracked, BusyReady, Passing, GrownFrom, AcceptedOn, ServedFds;
      ghost var was, facts, snap, todo := servers, FactsOf(servers), Snapshot(), servers;
      StartPassing(rdset);
      NoneServed(AcceptedOn(calls), facts, rdset);
      rc := false;
      var srv := head;
      while srv != null
        invariant Passing(was, facts, rdset, snap, todo, rc) && |todo| <= |was|
        invariant srv == if todo == [] then null else todo[0]
        invariant (srv != null ==> srv in was) && forall i :: 0 <= i < |servers| ==> servers[i] in was
        invariant |servers| <= |was| && (freed != old(freed) ==> |servers| < |was|)
        invariant orphaned >= old(orphaned) && old(calls) <= calls
        invariant AcceptedOn(calls) == AcceptedOn(old(calls)) + ServedFds(facts, rdset, |was| - |todo|)
        invariant old(Tracked()) && rdset <= fdset ==> Tracked()
        invariant numChildren <= old(numChildren) + |was| - |todo|
        invariant peak <= old(peak) || peak <= old(numChildren) + |was| - |todo|
        decreases |todo|
      {
        ghost var k := |was| - |todo|;
        rc, srv := Turn(srv, rdset, rc, was, facts, snap, todo);
        ServedMore(AcceptedOn(old(calls)), facts, rdset, k);
        todo := todo[1..];
      }
      EndPassing(was, facts, rdset, snap, rc);
    }

    lemma StillFrom(snap: map<Server, (int, nat)>)
      requires GrownFrom(snap)
      ensures forall i :: 0 <= i < |servers| ==> servers[i] in snap
    {
      assert forall i :: 0 <= i < |servers| ==> servers[i] in servers;
    }

    lemma StartPass()
      requires Valid()
      ensures GrownFrom(Snapshot()) && IsTail(servers, servers) && Unique(servers)
      ensures Snapshot().Keys == set s | s in servers
      ensures head == if servers == [] then null else servers[0]
    {
    }

    lemma ListOf()
      requires Valid()
      ensures Linked()
    {
    }

    lemma Successor(k: nat)
      requires Linked() && k < |servers|
      ensures servers[k].next == if k + 1 < |servers| then servers[k + 1] else null
    {
    }

    // ---- the main loop ----

    /** Time passes: children may exit, a signal may ask to stop. */
    method Interlude()
      requires Valid()
      modifies this`running, this`zombies, this`needCleanup, this`stop
      ensures Valid()
      ensures old(needCleanup) ==> needCleanup
      ensures old(running) == {} ==> needCleanup == old(needCleanup) && running == {}
      ensures running <= old(running) && running + zombies == old(running + zombies)
      ensures old(Signalled()) ==> Signalled()
    {
      hide ValidFor;
      ChildrenExit();
      if * {
        stop := true;
      }
    }

    /** pause: until a signal comes, which is that of a child or one to stop. */
    method Pause()
      requires Valid()
      modifies this`running, this`zombies, this`needCleanup, this`stop
      ensures Valid() && (needCleanup || stop)
      ensures old(needCleanup) ==> needCleanup
      ensures running <= old(running) && running + zombies == old(running + zombies)
      ensures old(Signalled()) ==> Signalled()
    {
      hide Valid;
      Interlude();
      if !needCleanup && !stop {
        if * {
          stop := true;
        } else {
          needCleanup := true;
        }
      }
    }

    ghost function ThisPoll(): Poll
      reads this`servers, this`fdset, this`maxfd, this`freed, this`computed, this`orphaned, this`numChildren
      reads servers`numChildren, servers`fd
    {
      Poll(fdset, maxfd, Wanted(), Fds(), freed, computed, orphaned, numChildren)
    }

    /**
     * select: some of the polled descriptors are ready, or it is interrupted, or it fails. It fails
     * with EBADF when a polled descriptor is closed.
     */
    method Select() returns (rc: int, rdset: set<int>)
      requires Valid()
      modifies this`polls, this`running, this`zombies, this`needCleanup, this`stop
      ensures Valid() && polls == old(polls) + [ThisPoll()]
      ensures rdset <= fdset && -2 <= rc && (rc >= 0 ==> rc == |rdset|) && (fdset * closed == {} || rc == -2)
      ensures rc == -1 ==> needCleanup || stop
      ensures old(needCleanup) ==> needCleanup
      ensures running + zombies == old(running + zombies) && (old(Signalled()) ==> Signalled())
    {
      hide ValidFor;
      polls := polls + [ThisPoll()];
      rdset :| rdset <= fdset;
      rc :| rc in {|rdset|, -1, -2};  // -1: interrupted by a signal, -2: another error
      if fdset * closed != {} {
        rc := -2;
      }
      if rc == -1 {
        Pause();
      } else {
        Interlude();
      }
    }

    /**
     * The state at the top of the loop of smap_srvman_run, for a run that started with n servers
     * and p children.
     */
    ghost predicate AtLoop(n: nat, p: nat)
      reads this, servers
    {
      && Valid() && |servers| <= n
      && (computed ==> Covered())
      && (maxChildren != 0 ==> peak < maxChildren + n || peak <= p)
      && AllCover(polls) && OrphansBelow(polls)
    }

    /** In these polls the children of freed servers did not by themselves exhaust the limit. */
    ghost predicate OrphansBelow(ps: seq<Poll>)
      reads this`orphaned
    {
      forall i :: 0 <= i < |ps| ==> ps[i].orphans <= orphaned && (maxChildren != 0 ==> ps[i].orphans < maxChildren)
    }

    /** In these polls no descriptor of a server that could accept is missing, once a set was computed. */
    ghost predicate AllCover(ps: seq<Poll>) {
      forall i :: 0 <= i < |ps| ==> ps[i].computed ==> ps[i].Covers()
    }

    /** The poll sets are clean just when no server was freed since they were computed. */
    ghost predicate Explained(ps: seq<Poll>) {
      forall i :: 0 <= i < |ps| ==> ps[i].computed ==> (ps[i].Clean() <==> ps[i].freed == {})
    }

    ghost predicate AllComputed(ps: seq<Poll>) {
      forall i :: 0 <= i < |ps| ==> ps[i].computed
    }

    /** The first request for a descriptor set is still pending, and no cleanup can come before it. */
    ghost predicate Fresh()
      reads this`recompute, this`needCleanup, this`running
    {
      recompute && !needCleanup && running == {}
    }

    /** What a run keeps about its polls: see Tracked and Fresh. */
    ghost predicate PollsExplained()
      reads this`servers, this`closed, this`freed, this`computed, this`fdset, this`polls, servers`fd
    {
      Tracked() && Explained(polls)
    }

    ghost predicate PollsComputed()
      reads this`recompute, this`needCleanup, this`running, this`computed, this`polls
    {
      (computed || Fresh()) && AllComputed(polls)
    }

    lemma GoodPoll(ps: seq<Poll>)
      requires computed ==> Covered()
      ensures AllCover(ps) ==> AllCover(ps + [ThisPoll()])
      ensures Tracked() && Explained(ps) ==> Explained(ps + [ThisPoll()])
      ensures computed && AllComputed(ps) ==> AllComputed(ps + [ThisPoll()])
    {
      if Tracked() && computed {
        StaleExactly();
      }
    }

    /** The servers of a snapshot that could accept are polled. */
    ghost predicate CoversSnapshot(snap: map<Server, (int, nat)>)
      reads this`fdset, this`maxfd
    {
      forall s :: s in snap && (s.maxChildren == 0 || snap[s].1 < s.maxChildren) ==>
                    snap[s].0 in fdset && snap[s].0 <= maxfd
    }

    lemma CoveredNow()
      requires Covered()
      ensures CoversSnapshot(Snapshot())
    {
      forall s | s in Snapshot() && !s.Busy()
        ensures s.fd in fdset && s.fd <= maxfd
      {
        var i :| 0 <= i < |servers| && servers[i] == s;
      }
    }

    /** Servers only got busier or went away: the descriptor set is still good. */
    lemma CoveredLater(snap: map<Server, (int, nat)>)
      requires GrownFrom(snap) && CoversSnapshot(snap)
      ensures Covered()
    {
      assert forall i :: 0 <= i < |servers| ==> servers[i] in servers;
    }

    /** A cleanup that asks for no new descriptor set leaves the old one good. */
    twostate lemma StillCovered()
      requires Released(false) && old(Covered()) && fdset == old(fdset) && maxfd == old(maxfd)
      requires forall s :: s in servers ==> s.fd == old(s.fd)
      ensures Covered()
    {
      forall i | 0 <= i < |servers| && !servers[i].Busy()
        ensures servers[i].fd in fdset && servers[i].fd <= maxfd
      {
        assert servers[i] in servers && servers[i] !in old(BusyServers());
      }
    }

    /**
     * The cleanup step of a round. If one is due, its result replaces the pending request: a new
     * descriptor set is then asked for exactly when some server stopped being busy.
     */
    method CleanUp()
      requires Valid()
      modifies this`needCleanup, this`recompute, this`numChildren, this`lostPids
      modifies this`running, this`zombies, servers`pidtab, servers`numChildren
      ensures Valid() && numChildren <= old(numChildren)
      ensures recompute <==> if old(needCleanup) then BusyServers() != old(BusyServers()) else old(recompute)
      ensures BusyServers() <= old(BusyServers())
      ensures old(Covered()) ==> Covered() || recompute
      ensures !old(needCleanup) ==> running == old(running)
      ensures old(Signalled()) ==> Signalled()
      ensures running <= old(running) && (old(needCleanup) ==> zombies <= old(running))
    {
      hide Valid, Covered;
      if needCleanup {
        needCleanup := false;
        recompute := ChildrenCleanup();
        if old(Covered()) && !recompute {
          StillCovered();
        }
      }
    }

    /**
     * The first half of a round: clean up if that is due, then compute the descriptor set if asked
     * to. A pending request is lost exactly when a cleanup is due and no server stopped being busy.
     */
    method Refresh(ghost n: nat, ghost p: nat) returns (ghost due: bool)
      requires AtLoop(n, p)
      modifies this`needCleanup, this`recompute, this`fdset, this`maxfd, this`numChildren, this`lostPids
      modifies this`running, this`zombies, this`stop, this`computed, this`freed, servers`pidtab, servers`numChildren
      ensures AtLoop(n, p) && !recompute && polls == old(polls) && BusyServers() <= old(BusyServers())
      ensures (old(needCleanup) ==> due) && (due ==> old(needCleanup) || old(running) != {})
      ensures if (if due then BusyServers() != old(BusyServers()) else old(recompute))
              then computed && freed == {} && fdset == Wanted()
              else computed == old(computed) && freed == old(freed) && fdset == old(fdset) && maxfd == old(maxfd)
      ensures (old(Tracked()) ==> Tracked()) && (old(PollsExplained()) ==> PollsExplained())
      ensures old(PollsComputed()) ==> computed && PollsComputed()
      ensures old(Signalled()) ==> Signalled()
      ensures running <= old(running) && (due ==> zombies <= old(running))
    {
      hide Valid, Covered, AllCover, OrphansBelow, Tracked, Wanted, BusyServers, Explained, AllComputed;
      Interlude();
      due := needCleanup;
      CleanUp();
      Recompute();
    }

    /** The descriptor set is computed if that is asked for. */
    method Recompute()
      requires Valid()
      modifies this`recompute, this`fdset, this`maxfd, this`computed, this`freed
      ensures !recompute
      ensures if old(recompute)
              then computed && freed == {} && fdset == Wanted() && Covered()
              else computed == old(computed) && freed == old(freed) && fdset == old(fdset) && maxfd == old(maxfd)
      ensures old(Tracked()) ==> Tracked()
    {
      hide Valid, Covered, Tracked, Opened, Wanted;
      if recompute {
        ListOf();
        TrackedParts();
        ComputeFdset();
        recompute := false;
        if old(Tracked()) {
          JustComputed();
        }
      }
    }

    lemma TrackedParts()
      ensures Tracked() ==> Opened() && freed <= closed
    {
    }

    /** The pass over the servers that follows a successful select. */
    method Pass(rdset: set<int>, ghost n: nat, ghost p: nat)
      requires AtLoop(n, p) && (maxChildren != 0 ==> numChildren < maxChildren) && rdset <= fdset
      modifies this`head, this`tail, this`servers, this`orphaned, this`lostPids, this`running, this`numChildren
      modifies this`peak, this`calls, this`closed, this`freed, this`recompute, servers
      ensures AtLoop(n, p)
      ensures old(Tracked()) ==> Tracked()
      ensures freed != old(freed) ==> recompute
      ensures recompute <==> |servers| < |old(servers)| || BusyReady(old(FactsOf(servers)), rdset, |old(servers)|)
      ensures AcceptedOn(calls) == AcceptedOn(old(calls)) + ServedFds(old(FactsOf(servers)), rdset, |old(servers)|)
      ensures old(calls) <= calls
      ensures forall i :: 0 <= i < |servers| ==> servers[i] in old(servers)
      ensures orphaned >= old(orphaned)
    {
      hide Valid, Covered, AllCover, Snapshot, CoversSnapshot, Tracked, BusyReady, GrownFrom;
      hide AcceptedOn, ServedFds, FactsOf;
      ghost var snap := Snapshot();
      assert snap.Keys == set s | s in servers by {
        StartPass();
      }
      if computed {
        CoveredNow();
      }
      recompute := ConnectionLoop(rdset);
      if computed {
        CoveredLater(snap);
      }
      StillFrom(snap);
    }

    /**
     * The second half of a round: wait for connections and accept them. A stale set ends the run. A
     * new descriptor set is asked for exactly when a pass has freed a server or found a busy one ready.
     */
    method Serve(ghost n: nat, ghost p: nat) returns (go: bool, ghost rc: int, ghost rdset: set<int>)
      requires AtLoop(n, p) && (maxChildren != 0 ==> numChildren < maxChildren)
      modifies this, servers
      ensures AtLoop(n, p) && polls == old(polls) + [old(ThisPoll())] && computed == old(computed)
      ensures (go <==> rc >= -1) && rdset <= old(fdset) && (rc == -1 ==> needCleanup || stop)
      ensures rc < 0 ==> servers == old(servers) && calls == old(calls) && recompute == old(recompute)
      ensures old(calls) <= calls
      ensures rc >= 0 ==>
                && rc == |rdset|
                && (recompute <==>
                      |servers| < |old(servers)| || BusyReady(old(FactsOf(servers)), rdset, |old(servers)|))
                && AcceptedOn(calls) ==
                   AcceptedOn(old(calls)) + ServedFds(old(FactsOf(servers)), rdset, |old(servers)|)
      ensures (old(Tracked()) ==> Tracked()) && (old(PollsExplained()) ==> PollsExplained())
      ensures old(computed && PollsComputed()) ==> PollsComputed()
      ensures old(Tracked()) && computed && old(freed) != {} ==> !go
      ensures go && freed != old(freed) ==> recompute
      ensures forall i :: 0 <= i < |servers| ==> servers[i] in old(servers)
      ensures orphaned >= old(orphaned)
      ensures zombies <= old(running + zombies) && (old(Signalled()) ==> Signalled())
    {
      hide Valid, Covered, AllCover, ThisPoll, Tracked, OrphansBelow, FactsOf, ServedFds, AcceptedOn, BusyReady;
      hide Explained, AllComputed;
      go := true;
      GoodPoll(polls);
      OrphansNow(polls);
      if Tracked() && computed {
        StaleExactly();
      }
      var ret, ready := Select();
      rc, rdset := ret, ready;
      if ret == -1 {
        return;
      }
      if ret < 0 {
        go := false;
        return;
      }
      Pass(ready, n, p);
    }

    lemma OrphansNow(ps: seq<Poll>)
      requires Valid() && OrphansBelow(ps) && (maxChildren != 0 ==> numChildren < maxChildren)
      ensures OrphansBelow(ps + [ThisPoll()])
    {
      OrphansCounted();
    }

    /**
     * A round after its first half: it pauses exactly when nothing can be accepted; if not, it selects,
     * unless the idle hook breaks the loop.
     */
    method Await(ghost n: nat, ghost p: nat) returns (go: bool, ghost kind: Kind)
      requires AtLoop(n, p) && !recompute
      modifies this, servers
      ensures AtLoop(n, p)
      ensures kind.q == old(ThisPoll())
      ensures kind.Paused? <==> kind.q.maxfd == 0 || (maxChildren != 0 && kind.q.children >= maxChildren)
      ensures polls == old(polls) + (if kind.Polled? then [kind.q] else [])
      ensures !kind.Polled? ==> kind.q == ThisPoll()
      ensures if kind.Paused? then calls == old(calls)
              else if kind.Hooked? then calls == old(calls) + [Hooks(true)]
              else old(calls) + [Hooks(false)] <= calls
      ensures kind.Paused? ==> (recompute <==> maxfd == 0) && (needCleanup || stop)
      ensures go <==> !kind.Breaks()
      ensures old(PollsExplained()) ==> PollsExplained()
      ensures old(computed && PollsComputed()) ==> computed && PollsComputed()
      ensures forall i :: 0 <= i < |servers| ==> servers[i] in old(servers)
      ensures orphaned >= old(orphaned)
      ensures zombies <= old(running + zombies) && (old(Signalled()) ==> Signalled())
    {
      hide ValidFor, Covered, AllCover, PollsExplained, AllComputed, Opened, Wanted, Fds, Tracked;
      ghost var q := ThisPoll();
      go := true;
      if maxfd == 0 {
        kind := Paused(q);
        Pause();
        recompute := true;
      } else if maxChildren != 0 && numChildren >= maxChildren {
        kind := Paused(q);
        Pause();
      } else {
        var stops := IdleHook();
        if stops {
          kind := Hooked(q);
          go := false;
        } else {
          ghost var rc, rdset;
          go, rc, rdset := Serve(n, p);
          kind := Polled(q, rc);
        }
      }
    }

    /**
     * One round of the loop of smap_srvman_run; go is false when the loop is left by a break. After
     * the cleanup and the computation of the set that may be due, it pauses exactly when nothing can
     * be accepted. Children that had exited when a round starts with a cleanup due have been waited
     * for when it ends.
     */
    method Round(ghost n: nat, ghost p: nat) returns (go: bool, ghost kind: Kind)
      requires AtLoop(n, p) && head != null && !stop
      modifies this, servers
      ensures AtLoop(n, p)
      ensures kind.Paused? <==> kind.q.maxfd == 0 || (maxChildren != 0 && kind.q.children >= maxChildren)
      ensures polls == old(polls) + (if kind.Polled? then [kind.q] else [])
      ensures !kind.Polled? ==> kind.q == ThisPoll()
      ensures if kind.Paused? then calls == old(calls)
              else if kind.Hooked? then calls == old(calls) + [Hooks(true)]
              else old(calls) + [Hooks(false)] <= calls
      ensures kind.Paused? ==> (recompute <==> maxfd == 0) && (needCleanup || stop)
      ensures kind.q.computed ==> kind.q.Covers()
      ensures go <==> !kind.Breaks()
      ensures old(PollsExplained()) ==> PollsExplained()
      ensures old(PollsComputed()) ==> PollsComputed()
      ensures forall i :: 0 <= i < |servers| ==> servers[i] in old(servers)
      ensures old(orphaned) >= maxChildren != 0 ==> kind.Paused?
      ensures orphaned >= old(orphaned)
      ensures old(Signalled()) ==> Signalled()
      ensures old(needCleanup) ==> zombies <= old(running)
    {
      hide Valid, Covered, AllCover, OrphansBelow, PollsExplained, PollsComputed, Opened, Wanted, Fds, BusyServers;
      hide Tracked;
      ghost var due := Refresh(n, p);
      CoversNow();
      OrphansCounted();
      go, kind := Await(n, p);
    }

    lemma CoversNow()
      requires computed ==> Covered()
      ensures computed ==> ThisPoll().Covers()
    {
    }

    lemma OrphansCounted()
      requires Valid()
      ensures orphaned <= numChildren
    {
    }

    /** The local variables of smap_srvman_run, and what is recorded about the run. */
    method StartRun()
      requires Valid()
      modifies this`recompute, this`stop, this`peak, this`computed, this`freed, this`polls
      ensures AtLoop(|servers|, numChildren) && recompute && !stop && polls == [] && !computed
      ensures Opened() ==> PollsExplained()
      ensures !needCleanup && running == {} ==> PollsComputed()
    {
      hide Linked, Tables, Opened, Covered, Valid;
      recompute, stop := true, false;
      SetPeak();
      computed, freed, polls := false, {}, [];
      NothingFreed();
    }

    /** From here on peak is the largest value of the counter. */
    ghost method SetPeak()
      requires Valid()
      modifies this`peak
      ensures Valid() && peak == numChildren
    {
      hide Linked, Tables;
      peak := numChildren;
    }

    lemma NothingFreed()
      requires freed == {} && !computed
      ensures Opened() ==> Tracked()
    {
    }

    /**
     * smap_srvman_run for any number of rounds. Every select after the set was first computed polls
     * each attached server that is not busy, and nothing but attached servers exactly when no server
     * was freed since. The set is computed before the first select if the run starts without
     * children and without a pending cleanup. The limits are kept. A round makes a select unless
     * nothing can be accepted or the hook breaks the loop, and the loop goes on until its list is
     * empty, a signal or the hook stops it, or select fails.
     */
    method Run(rounds: nat) returns (ghost kinds: seq<Kind>)
      requires Valid()
      modifies this, servers
      ensures Valid()
      ensures forall i :: 0 <= i < |polls| ==> polls[i].computed ==> polls[i].Covers()
      ensures old(Opened()) ==>
                forall i :: 0 <= i < |polls| ==> polls[i].computed ==> (polls[i].Clean() <==> polls[i].freed == {})
      ensures !old(needCleanup) && old(running) == {} ==> forall i :: 0 <= i < |polls| ==> polls[i].computed
      ensures maxChildren != 0 ==>
                numChildren <= peak && (peak <= maxChildren - 1 + |old(servers)| || peak <= old(numChildren))
      ensures maxChildren != 0 ==> forall i :: 0 <= i < |polls| ==> polls[i].orphans < maxChildren
      ensures old(orphaned) >= maxChildren != 0 ==> polls == []
      ensures orphaned >= old(orphaned) && forall i :: 0 <= i < |polls| ==> polls[i].orphans <= orphaned
      ensures maxChildren != 0 && |old(servers)| <= 1 && old(numChildren) <= maxChildren ==> peak <= maxChildren
      ensures forall s :: s in servers ==> s in old(servers) && (s.maxChildren != 0 ==> s.numChildren <= s.maxChildren)
      ensures polls == PolledIn(kinds) && |kinds| <= rounds
      ensures forall i :: 0 <= i < |kinds| ==>
                (kinds[i].Paused? <==> kinds[i].q.maxfd == 0 || kinds[i].q.children >= maxChildren != 0)
      ensures forall i :: 0 <= i < |kinds| ==> kinds[i].q.computed ==> kinds[i].q.Covers()
      ensures forall i :: 0 <= i < |kinds| - 1 ==> !kinds[i].Breaks()
      ensures |kinds| < rounds ==> head == null || stop || (kinds != [] && kinds[|kinds| - 1].Breaks())
      ensures |running + zombies| + orphaned == numChildren + |lostPids|
      ensures forall i :: 0 <= i < |servers| ==>
                && Pids(servers[i].pidtab) <= running + zombies && |Pids(servers[i].pidtab)| == servers[i].numChildren
                && (servers[i].maxChildren != 0 ==> |Pids(servers[i].pidtab)| <= servers[i].maxChildren)
      ensures old(Signalled()) ==> Signalled()
    {
      hide ValidFor, Covered, Opened, Rounds;
      ghost var n, p := |servers|, numChildren;
      StartRun();
      kinds := [];
      NoRounds();
      var i := 0;
      var go := true;
      while head != null && !stop && go && i < rounds
        invariant AtLoop(n, p)
        invariant old(Opened()) ==> PollsExplained()
        invariant !old(needCleanup) && old(running) == {} ==> PollsComputed()
        invariant forall i :: 0 <= i < |servers| ==> servers[i] in old(servers)
        invariant orphaned >= old(orphaned) && (old(orphaned) >= maxChildren != 0 ==> polls == [])
        invariant |kinds| == i <= rounds && polls == PolledIn(kinds) && Rounds(kinds, go)
        invariant old(Signalled()) ==> Signalled()
      {
        ghost var kind;
        go, kind := Round(n, p);
        PolledInMore(kinds, kind);
        RoundsMore(kinds, kind);
        kinds := kinds + [kind];
        i := i + 1;
      }
      RoundsOf(kinds, go);
      Limits();
      Processes();
    }

    /** The rounds of a run: all but the last go on, and that one does if go is true. */
    ghost predicate Rounds(kinds: seq<Kind>, go: bool) {
      && (forall i :: 0 <= i < |kinds| ==>
            (kinds[i].Paused? <==> kinds[i].q.maxfd == 0 || kinds[i].q.children >= maxChildren != 0))
      && (forall i :: 0 <= i < |kinds| ==> kinds[i].q.computed ==> kinds[i].q.Covers())
      && (forall i :: 0 <= i < |kinds| - 1 ==> !kinds[i].Breaks())
      && (go <==> kinds == [] || !kinds[|kinds| - 1].Breaks())
    }

    lemma NoRounds()
      ensures Rounds([], true)
    {
    }

    lemma RoundsMore(kinds: seq<Kind>, kind: Kind)
      requires Rounds(kinds, true)
      requires kind.Paused? <==> kind.q.maxfd == 0 || kind.q.children >= maxChildren != 0
      requires kind.q.computed ==> kind.q.Covers()
      ensures Rounds(kinds + [kind], !kind.Breaks())
    {
    }

    lemma RoundsOf(kinds: seq<Kind>, go: bool)
      requires Rounds(kinds, go)
      ensures forall i :: 0 <= i < |kinds| ==>
                (kinds[i].Paused? <==> kinds[i].q.maxfd == 0 || kinds[i].q.children >= maxChildren != 0)
      ensures forall i :: 0 <= i < |kinds| ==> kinds[i].q.computed ==> kinds[i].q.Covers()
      ensures forall i :: 0 <= i < |kinds| - 1 ==> !kinds[i].Breaks()
      ensures !go ==> kinds != [] && kinds[|kinds| - 1].Breaks()
    {
    }

    /**
     * The counters speak of processes: each server has as many children as its table has pids, it is
     * busy and not polled just when these use up its limit, and the global counter exceeds the number
     * of processes by the children of freed servers that have been waited for.
     */
    lemma Processes()
      requires Valid()
      ensures |running + zombies| + orphaned == numChildren + |lostPids|
      ensures forall i :: 0 <= i < |servers| ==>
                Pids(servers[i].pidtab) <= running + zombies && |Pids(servers[i].pidtab)| == servers[i].numChildren
      ensures forall i :: 0 <= i < |servers| && servers[i].maxChildren != 0 ==>
                && |Pids(servers[i].pidtab)| <= servers[i].maxChildren
                && (servers[i].Busy() <==> |Pids(servers[i].pidtab)| == servers[i].maxChildren)
      ensures forall i :: 0 <= i < |servers| && servers[i].maxChildren == 0 ==> !servers[i].Busy()
      ensures forall fd :: fd in ThisPoll().wanted <==>
                exists i :: 0 <= i < |servers| && servers[i].fd == fd && !servers[i].Busy()
    {
      hide Linked, Pids, Sum, Used, Distinct;
      var tabs, used := TabsOf(servers), running + zombies;
      ApartCount(tabs, used, lostPids, CountsOf(servers));
      forall i | 0 <= i < |servers|
        ensures Pids(servers[i].pidtab) <= used && |Pids(servers[i].pidtab)| == servers[i].numChildren
        ensures servers[i].maxChildren != 0 ==> servers[i].numChildren <= servers[i].maxChildren
      {
        assert tabs[i] == servers[i].pidtab;
        PidCount(tabs[i]);
      }
    }

    lemma Limits()
      requires Valid()
      ensures numChildren <= peak
      ensures forall s :: s in servers ==> s.maxChildren != 0 ==> s.numChildren <= s.maxChildren
    {
    }
  }

  /**
   * A request for a new descriptor set is pending when a cleanup falls due, and no server is busy:
   * the request is lost and the old set is kept.
   */
  method LostRequest(m: Manager, ghost n: nat, ghost p: nat)
    requires m.AtLoop(n, p) && m.computed && m.Tracked() && m.BusyServers() == {}
    modifies m, m.servers
    ensures m.Tracked() && m.computed && !m.recompute
    ensures m.fdset == old(m.fdset) && m.freed == old(m.freed)
  {
    hide Manager.Valid, Manager.Tracked, Manager.Covered, Manager.BusyServers;
    m.recompute, m.needCleanup := true, true;
    RefreshNothing(m, n, p);
  }

  /**
   * A server whose accept failed has been closed and freed, which asks for a new descriptor set, and
   * a cleanup falls due. The set that is polled next still has the closed descriptor.
   */
  method StaleExample() returns (m: Manager)
    ensures m.Tracked() && m.computed && !m.recompute
    ensures 3 in m.fdset && 3 in m.closed && 3 !in m.Fds() && m.freed == {3}
  {
    hide Manager.Valid, Manager.Tracked;
    m := TwoServers();
    var a := m.head;
    ghost var b := m.servers[1];
    assert !b.Busy() && m.servers == [a, b];
    m.AcceptFailed(a, 0);
    assert m.servers == [b];
    assert m.BusyServers() == {};
    LostRequest(m, 1, 0);
    FreedIsStale(m, 3);
  }

  lemma FreedIsStale(m: Manager, fd: int)
    requires m.Tracked() && m.computed && fd in m.freed
    ensures fd in m.fdset && fd in m.closed && fd !in m.Fds()
  {
  }

  /** A new server without a limit, on the descriptor fd. */
  method AddServer(m: Manager, fd: int) returns (s: Server)
    requires m.Valid()
    modifies m`head, m`tail, m`servers, m.servers`next
    ensures m.Valid() && m.servers == old(m.servers) + [s] && fresh(s)
    ensures s.fd == fd && s.maxChildren == 0
  {
    hide Manager.Valid, Manager.Linked;
    s := new Server(fd, 0, false);
    m.ListOf();
    label Before:
    m.AttachServer(s);
    m.AttachedStill@Before(s);
  }

  lemma TwoWanted(m: Manager)
    requires |m.servers| == 2 && Unlimited(m)
    ensures m.Wanted() == {m.servers[0].fd, m.servers[1].fd}
  {
    assert m.servers[0].fd in m.Wanted() && m.servers[1].fd in m.Wanted();
  }

  /** Two servers without limits, in the state before a select. */
  method TwoServers() returns (m: Manager)
    ensures fresh(m) && fresh(m.servers) && m.Valid() && m.Tracked() && m.Covered() && m.computed && m.freed == {}
    ensures |m.servers| == 2 && m.servers[0].fd == 3 && m.servers[0] == m.head && 3 in m.fdset
    ensures m.servers[0].maxChildren == m.servers[1].maxChildren == m.maxChildren == 0 && m.polls == []
  {
    hide Manager.Valid, Manager.Tracked, Manager.Wanted, Manager.Covered;
    m := NServers(0, 2);
    m.StartPass();
    m.NothingFreed();
    m.Recompute();
    TwoWanted(m);
  }

  /**
   * For every limit and any number of servers: a state that passes the check before a pass, and a
   * pass in which each server accepts a connection and forks. It ends with limit - 1 children more
   * than there are servers, which is above the limit as soon as there are two.
   */
  method LimitExample(limit: nat, n: nat) returns (m: Manager, ghost checked: nat)
    requires limit > 0 && n > 0
    ensures m.Valid() && m.maxChildren == limit && |m.servers| == n
    ensures checked == limit - 1 < m.maxChildren && m.numChildren == checked + n
    ensures n >= 2 ==> m.numChildren > m.maxChildren
  {
    hide Manager.Valid;
    m := NServers(limit, n);
    m.StartPass();
    var first, i := m.head, 0;
    while i < limit - 1
      invariant m.Valid() && m.maxChildren == limit && |m.servers| == n && fresh(m) && fresh(m.servers)
      invariant Unlimited(m) && first == m.servers[0] && i <= limit - 1 && m.numChildren == i
      modifies m, m.servers
    {
      AddChild(m, first, 0);
      i := i + 1;
    }
    checked := m.numChildren;
    AcceptAll(m);
  }

  ghost predicate Unlimited(m: Manager)
    reads m
  {
    forall i :: 0 <= i < |m.servers| ==> m.servers[i].maxChildren == 0
  }

  /** n servers without limits of their own under a global limit. */
  method NServers(limit: nat, n: nat) returns (m: Manager)
    ensures fresh(m) && fresh(m.servers) && m.Valid() && m.maxChildren == limit && |m.servers| == n
    ensures m.closed == {-1} && m.freed == {} && !m.computed && m.polls == [] && m.recompute
    ensures Unlimited(m) && m.numChildren == 0 && forall i :: 0 <= i < n ==> m.servers[i].fd == 3 + i
  {
    hide Manager.Valid;
    m := new Manager(limit, false);
    var i := 0;
    while i < n
      invariant fresh(m) && fresh(m.servers) && m.Valid() && m.maxChildren == limit
      invariant i <= n && |m.servers| == i && Unlimited(m) && m.numChildren == 0
      invariant m.closed == {-1} && m.freed == {} && !m.computed && m.polls == [] && m.recompute
      invariant forall j :: 0 <= j < i ==> m.servers[j].fd == 3 + j
    {
      var s := AddServer(m, 3 + i);
      i := i + 1;
    }
  }

  /** connection_loop when every server is ready, no connection is denied and every fork succeeds. */
  method AcceptAll(m: Manager)
    requires m.Valid() && Unlimited(m)
    modifies m`running, m`numChildren, m`peak, m.servers`pidtab, m.servers`numChildren
    ensures m.Valid() && m.numChildren == old(m.numChildren) + |m.servers|
  {
    hide Manager.Valid;
    m.StartPass();
    m.ListOf();
    var srv := m.head;
    ghost var k := 0;
    while srv != null
      invariant m.Valid() && k <= |m.servers| && m.numChildren == old(m.numChildren) + k
      invariant if k < |m.servers| then srv == m.servers[k] else srv == null
      decreases |m.servers| - k
    {
      m.ListOf();
      m.Successor(k);
      var next := srv.next;
      AddChild(m, srv, k);
      srv := next;
      k := k + 1;
    }
  }

  /** What server_run does when fork succeeds. */
  method AddChild(m: Manager, s: Server, ghost k: nat)
    requires m.Valid() && k < |m.servers| && m.servers[k] == s && !s.Busy()
    modifies m`running, m`numChildren, m`peak, s`pidtab, s`numChildren
    ensures m.Valid() && m.numChildren == old(m.numChildren) + 1
  {
    hide Manager.ValidFor;
    ghost var bound := Bound(m.running + m.zombies);
    ghost var used := m.running + m.zombies;
    var pid: nat :| pid != 0 && pid !in m.running + m.zombies;
    m.running := m.running + {pid};
    assert m.running + m.zombies == used + {pid};
    m.RegisterChild(s, pid, k, used);
  }

  /**
   * A run that starts with a cleanup due, in which no server stops being busy: select polls a set
   * that was never computed. What the set and maxfd are then is arbitrary.
   */
  method UncomputedExample(fdset: set<int>, maxfd: int) returns (m: Manager, go: bool)
    requires maxfd != 0
    ensures m.polls != [] && !m.polls[0].computed && m.polls[0].fdset == fdset && m.polls[0].maxfd == maxfd
    ensures m.polls[0].wanted == {3}
  {
    hide Manager.Valid, Manager.Covered, Manager.Tracked;
    m := NotComputed(fdset, maxfd);
    ghost var poll := m.ThisPoll();
    OneWanted(m);
    ghost var rc, rdset;
    go, rc, rdset := m.Serve(1, 0);
    assert m.polls[0] == poll;
  }

  /** One server is attached, the loop has been entered, and its first half leaves the set uncomputed. */
  method NotComputed(fdset: set<int>, maxfd: int) returns (m: Manager)
    ensures fresh(m) && fresh(m.servers) && m.AtLoop(1, 0) && m.maxChildren == 0 && m.polls == []
    ensures m.head != null && !m.computed && !m.recompute && m.fdset == fdset && m.maxfd == maxfd
    ensures |m.servers| == 1 && m.servers[0].fd == 3 && m.servers[0].maxChildren == 0
  {
    hide Manager.Valid, Manager.AtLoop, Manager.BusyServers, Manager.Wanted, Manager.Fresh, Manager.Opened;
    m := DueForCleanup(fdset, maxfd);
    NoneBusy(m);
    RefreshNothing(m, 1, 0);
  }

  /** The loop is entered with one server attached and a cleanup due. */
  method DueForCleanup(fdset: set<int>, maxfd: int) returns (m: Manager)
    ensures fresh(m) && fresh(m.servers) && m.AtLoop(1, 0) && m.maxChildren == 0 && m.polls == []
    ensures m.head != null && !m.computed && m.needCleanup && m.fdset == fdset && m.maxfd == maxfd
    ensures |m.servers| == 1 && m.servers[0].fd == 3 && Unlimited(m)
  {
    hide Manager.Valid, Manager.AtLoop, Manager.Fresh, Manager.Opened, Manager.PollsExplained;
    hide Manager.PollsComputed;
    m := NServers(0, 1);
    m.fdset, m.maxfd := fdset, maxfd;
    m.StartPass();
    m.needCleanup := true;
    m.StartRun();
  }

  lemma NoneBusy(m: Manager)
    requires Unlimited(m)
    ensures m.BusyServers() == {}
  {
  }

  /** A cleanup is due and no server is busy: no set is computed, whether one was asked for or not. */
  method RefreshNothing(m: Manager, ghost n: nat, ghost p: nat)
    requires m.AtLoop(n, p) && m.needCleanup && m.BusyServers() == {}
    modifies m`needCleanup, m`recompute, m`fdset, m`maxfd, m`numChildren, m`lostPids
    modifies m`running, m`zombies, m`stop, m`computed, m`freed, m.servers`pidtab, m.servers`numChildren
    ensures m.AtLoop(n, p) && !m.recompute
    ensures m.computed == old(m.computed) && m.fdset == old(m.fdset) && m.maxfd == old(m.maxfd)
    ensures m.freed == old(m.freed) && (old(m.Tracked()) ==> m.Tracked())
  {
    hide Manager.AtLoop, Manager.BusyServers, Manager.Wanted, Manager.Tracked;
    ghost var due := m.Refresh(n, p);
  }

  lemma OneWanted(m: Manager)
    requires |m.servers| == 1 && m.servers[0].maxChildren == 0
    ensures m.Wanted() == {m.servers[0].fd}
  {
  }
}
