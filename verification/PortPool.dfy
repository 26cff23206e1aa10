/** The proxy port pool: assignment by worker, rotation on failure, and expansion in place. */
module PortPool {
  import opened Arithmetic
  import opened Options

  /** A port as JavaScript computes it: the maximum of no ports is minus infinity. */
  datatype Port = Number(n: int) | MinusInfinity

  predicate Distinct(s: seq<Port>) {
    forall i, j :: 0 <= i < j < |s| ==> s[i] != s[j]
  }

  predicate AtLeast(p: Port, q: Port) {
    q.MinusInfinity? || (p.Number? && p.n >= q.n)
  }

  /** `Math.max(...s)` */
  function MaxOf(s: seq<Port>): (m: Port)
    ensures forall i :: 0 <= i < |s| ==> AtLeast(m, s[i])
    ensures m in s || m.MinusInfinity?
  {
    if s == [] then MinusInfinity
    else
      var m := MaxOf(s[1..]);
      if AtLeast(s[0], m) then s[0] else m
  }

  function Plus(p: Port, k: int): Port {
    if p.Number? then Number(p.n + k) else MinusInfinity
  }

  /** `indexOf`, with the length standing for -1. */
  function IndexOf(s: seq<Port>, x: Port): (k: nat)
    ensures k <= |s|
    ensures k < |s| ==> s[k] == x
    ensures forall i :: 0 <= i < k ==> s[i] != x
  {
    if s == [] || s[0] == x then 0 else 1 + IndexOf(s[1..], x)
  }

  /** JavaScript's remainder, which takes the sign of the dividend. */
  function Remainder(a: int, n: nat): int
    requires n > 0
  {
    if a >= 0 then a % n else -((-a) % n)
  }

  /** `None` stands for `undefined`: an empty pool, or a worker below 1 that maps to a negative index. */
  function PortByWorker(ports: seq<Port>, workerId: int): Option<Port> {
    if ports == [] then None
    else
      var index := Remainder(workerId - 1, |ports|);
      if 0 <= index < |ports| then Some(ports[index]) else None
  }

  /** An unknown port is followed by the first one. */
  function NextPort(ports: seq<Port>, current: Port): Option<Port> {
    if ports == [] then None
    else
      var k := IndexOf(ports, current);
      Some(ports[if k == |ports| then 0 else (k + 1) % |ports|])
  }

  class Pool {
    var ports: seq<Port>

    constructor (ports: seq<Port>)
      ensures this.ports == ports
    {
      this.ports := ports;
    }

    /** The new ports are distinct too, unless there is no number to count on from and two ports or more. */
    method ExpandPorts(count: int)
      modifies this
      ensures old(ports) <= ports
      ensures |ports| == if |old(ports)| < count then count else |old(ports)|
      ensures forall i :: |old(ports)| <= i < |ports| ==> ports[i] == Plus(MaxOf(old(ports)), i)
      ensures Distinct(ports) <==> Distinct(old(ports)) && (MaxOf(old(ports)).Number? || |ports| <= 1)
    {
      var currentMax := MaxOf(ports);
      while |ports| < count
        invariant old(ports) <= ports && (|ports| <= count || ports == old(ports))
        invariant forall i :: |old(ports)| <= i < |ports| ==> ports[i] == Plus(currentMax, i)
        decreases count - |ports|
      {
        ports := ports + [Plus(currentMax, |ports|)];
      }
      ExpandedDistinct(old(ports), ports);
    }
  }

  lemma ExpandedDistinct(before: seq<Port>, after: seq<Port>)
    requires before <= after
    requires forall i :: |before| <= i < |after| ==> after[i] == Plus(MaxOf(before), i)
    ensures Distinct(after) <==> Distinct(before) && (MaxOf(before).Number? || |after| <= 1)
  {
    var m := MaxOf(before);
    assert forall i :: 0 <= i < |before| ==> after[i] == before[i];
    if m.MinusInfinity? && |after| > 1 {
      assert forall i :: 0 <= i < |before| ==> AtLeast(m, before[i]);
      assert after[0] == after[1] == MinusInfinity;
    }
  }

  /** The workers from 1 on take the ports in their order, and begin again behind the last. */
  lemma WorkersInOrder(ports: seq<Port>, i: nat, workerId: int)
    requires i < |ports| && workerId >= 1
    ensures PortByWorker(ports, i + 1) == Some(ports[i])
    ensures PortByWorker(ports, workerId + |ports|) == PortByWorker(ports, workerId)
  {
    Wrapped(i, |ports|);
    NextCycle(workerId - 1, |ports|);
  }

  // ---------------------------------------------------------------------------------------
  // Rotation
  // ---------------------------------------------------------------------------------------

  /** The port reached after `k` rotations from `current`. */
  function After(ports: seq<Port>, current: Port, k: nat): Port
    requires ports != []
  {
    if k == 0 then current else NextPort(ports, After(ports, current, k - 1)).value
  }

  /** An unknown port is followed by the first one; an empty pool has none to follow. */
  lemma NextOfUnknown(ports: seq<Port>, current: Port)
    requires current !in ports
    ensures NextPort(ports, current) == if ports == [] then None else Some(ports[0])
  {
  }

  /** A port of the pool is followed by the next one, the last by the first. */
  lemma NextOfMember(ports: seq<Port>, m: nat)
    requires Distinct(ports) && m < |ports|
    ensures NextPort(ports, ports[m]) == Some(ports[if m + 1 == |ports| then 0 else m + 1])
  {
    assert IndexOf(ports, ports[m]) == m;
    Wrapped(m + 1, |ports|);
  }

  /** Fewer rotations than ports: the index moves on by as many, around the end. */
  lemma {:induction false} AfterFew(ports: seq<Port>, i: nat, k: nat)
    requires Distinct(ports) && i < |ports| && k <= |ports|
    ensures After(ports, ports[i], k) == ports[if i + k < |ports| then i + k else i + k - |ports|]
    decreases k
  {
    if k > 0 {
      AfterFew(ports, i, k - 1);
      var m := if i + k - 1 < |ports| then i + k - 1 else i + k - 1 - |ports|;
      NextOfMember(ports, m);
    }
  }

  /** After as many rotations as there are ports, the starting port is current again. */
  lemma RotationReturns(ports: seq<Port>, i: nat)
    requires Distinct(ports) && i < |ports|
    ensures After(ports, ports[i], |ports|) == ports[i]
  {
    AfterFew(ports, i, |ports|);
  }

  /** Within one cycle rotation comes to every port of the pool. */
  lemma RotationReaches(ports: seq<Port>, i: nat, p: Port) returns (k: nat)
    requires Distinct(ports) && i < |ports| && p in ports
    ensures k < |ports| && After(ports, ports[i], k) == p
  {
    var j :| 0 <= j < |ports| && ports[j] == p;
    k := if i <= j then j - i else j - i + |ports|;
    AfterFew(ports, i, k);
  }

  /** Within one cycle it comes to no port twice. */
  lemma RotationApart(ports: seq<Port>, i: nat, k: nat, l: nat)
    requires Distinct(ports) && i < |ports| && k < l < |ports|
    ensures After(ports, ports[i], k) != After(ports, ports[i], l)
  {
    AfterFew(ports, i, k);
    AfterFew(ports, i, l);
  }

  // ---------------------------------------------------------------------------------------
  // Load
  // ---------------------------------------------------------------------------------------

  /**
   A worker has a port exactly if its number is at least 1, or 1 less a multiple of the pool's
   size; such a worker below 1 shares the first port.
   */
  lemma HasPortIff(ports: seq<Port>, workerId: int)
    requires ports != []
    ensures PortByWorker(ports, workerId).Some? <==> workerId >= 1 || (1 - workerId) % |ports| == 0
    ensures workerId < 1 && PortByWorker(ports, workerId).Some? ==> PortByWorker(ports, workerId) == Some(ports[0])
  {
  }

  /** How many of the `m` workers from `w` on are given the port. */
  function Load(ports: seq<Port>, p: Port, w: int, m: nat): nat {
    if m == 0 then 0 else Load(ports, p, w, m - 1) + if PortByWorker(ports, w + m - 1) == Some(p) then 1 else 0
  }

  lemma {:induction false} LoadIsQuotient(ports: seq<Port>, r: nat, w: int, m: nat)
    requires Distinct(ports) && r < |ports| && w >= 1
    ensures var n := |ports|;
            Load(ports, ports[r], w, m) == (w - 1 + m) / n - (w - 1) / n
              + (if r < (w - 1 + m) % n then 1 else 0) - (if r < (w - 1) % n then 1 else 0)
    decreases m
  {
    if m > 0 {
      LoadIsQuotient(ports, r, w, m - 1);
      Successor(w + m - 2, |ports|);
    }
  }

  lemma LoadFromOne(ports: seq<Port>, r: nat, m: nat)
    requires Distinct(ports) && r < |ports|
    ensures Load(ports, ports[r], 1, m) == m / |ports| + if r < m % |ports| then 1 else 0
  {
    LoadIsQuotient(ports, r, 1, m);
    QuotientUnique(|ports|, 0, 0);
  }

  lemma {:induction false} LoadSplits(ports: seq<Port>, p: Port, w: int, k: nat, m: nat)
    ensures Load(ports, p, w, k + m) == Load(ports, p, w, k) + Load(ports, p, w + k, m)
    decreases m
  {
    if m > 0 {
      LoadSplits(ports, p, w, k, m - 1);
    }
  }

  /** Workers below 1 load no port but the first. */
  lemma {:induction false} LoadBelowOne(ports: seq<Port>, r: nat, w: int, m: nat)
    requires Distinct(ports) && 0 < r < |ports| && w + m <= 1
    ensures Load(ports, ports[r], w, m) == 0
    decreases m
  {
    if m > 0 {
      LoadBelowOne(ports, r, w, m - 1);
      HasPortIff(ports, w + m - 1);
    }
  }

  /** No port serves two workers more than another. */
  ghost predicate Balanced(ports: seq<Port>, w: int, m: nat) {
    forall r, s :: 0 <= r < |ports| && 0 <= s < |ports| ==>
      Load(ports, ports[r], w, m) <= Load(ports, ports[s], w, m) + 1
  }

  /** Workers numbered from 1, as they are meant to be, load the ports of any pool evenly. */
  lemma LoadBalancedFromOne(ports: seq<Port>, w: int, m: nat)
    requires Distinct(ports) && w >= 1
    ensures Balanced(ports, w, m)
  {
    forall r, s | 0 <= r < |ports| && 0 <= s < |ports|
      ensures Load(ports, ports[r], w, m) <= Load(ports, ports[s], w, m) + 1
    {
      LoadIsQuotient(ports, r, w, m);
      LoadIsQuotient(ports, s, w, m);
    }
  }

  /** Workers below 1 load the first port once for every multiple of the pool's size that they are below 1 by. */
  lemma {:induction false} FirstLoadBelowOne(ports: seq<Port>, w: int, m: nat)
    requires Distinct(ports) && ports != [] && w + m <= 1
    ensures Load(ports, ports[0], w, m) == (1 - w) / |ports| - (1 - w - m) / |ports|
    decreases m
  {
    if m > 0 {
      FirstLoadBelowOne(ports, w, m - 1);
      HasPortIff(ports, w + m - 1);
      Successor(1 - w - m, |ports|);
    }
  }

  /** How many of the block's workers are below 1. */
  function Below(w: int, m: nat): nat {
    if w >= 1 then 0 else if w + m <= 1 then m else 1 - w
  }

  /** The load of a port in a block that begins below worker 1: a part from below, and one from worker 1 on. */
  lemma LoadOfPort(ports: seq<Port>, r: nat, w: int, m: nat)
    requires Distinct(ports) && r < |ports| && w < 1
    ensures var n, below := |ports|, Below(w, m);
            Load(ports, ports[r], w, m) ==
            (if r == 0 then Load(ports, ports[0], w, below) else 0)
            + (m - below) / n + (if r < (m - below) % n then 1 else 0)
  {
    var below := Below(w, m);
    var rest := m - below;
    LoadSplits(ports, ports[r], w, below, rest);
    if rest > 0 {
      LoadFromOne(ports, r, rest);
    } else {
      QuotientUnique(|ports|, 0, 0);
    }
    if r > 0 {
      LoadBelowOne(ports, r, w, below);
    }
  }

  /** How many workers more than the last port the first one may have: those below 1, and one of an incomplete cycle. */
  function Surplus(n: nat, w: int, m: nat): int
    requires n > 0
  {
    var below := Below(w, m);
    (1 - w) / n - (1 - w - below) / n + if (m - below) % n == 0 then 0 else 1
  }

  lemma LoadBalancedBelowOneIff(ports: seq<Port>, w: int, m: nat)
    requires Distinct(ports) && |ports| > 1 && w < 1
    ensures Balanced(ports, w, m) <==> Surplus(|ports|, w, m) <= 1
  {
    var n, below := |ports|, Below(w, m);
    var q, last, first := (m - below) / n, (m - below) % n, Load(ports, ports[0], w, below);
    FirstLoadBelowOne(ports, w, below);
    forall r | 0 <= r < n
      ensures Load(ports, ports[r], w, m) == (if r == 0 then first else 0) + q + if r < last then 1 else 0
    {
      LoadOfPort(ports, r, w, m);
    }
    if Balanced(ports, w, m) {
      assert Load(ports, ports[0], w, m) <= Load(ports, ports[n - 1], w, m) + 1;
    }
  }

  /** Any block of consecutive workers, wherever it begins, loads the ports evenly exactly as its numbers say. */
  lemma LoadBalancedIff(ports: seq<Port>, w: int, m: nat)
    requires Distinct(ports) && ports != []
    ensures Balanced(ports, w, m) <==> w >= 1 || |ports| == 1 || Surplus(|ports|, w, m) <= 1
  {
    if w >= 1 {
      LoadBalancedFromOne(ports, w, m);
    } else if |ports| > 1 {
      LoadBalancedBelowOneIff(ports, w, m);
    }
  }
}
