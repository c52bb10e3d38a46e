/** NodePoolClient: asking NodePool for a node by writing a request into the
    store, and accepting the nodes NodePool allocated by locking them. */
module NodePool {
  import opened Wrappers
  import opened JavaStrings
  import opened RequestId
  import opened Coordination

  /** The client's configuration. Nothing in it changes after construction. */
  datatype Client = Client(
    connectionString: string,
    requestRoot: string,
    requestLockRoot: string,
    nodeRoot: string,
    priority: int,
    credentialsId: string)

  /** The three-argument constructor. Its assignment of requestRoot assigns
      the field to itself, so the root keeps its initial value. */
  function NewClientWithPriority(connectionString: string, priority: int, credentialsId: string): (c: Client)
    ensures c.connectionString == connectionString && c.priority == priority && c.credentialsId == credentialsId
    ensures c.requestRoot == "requests" && c.requestLockRoot == "requests-lock" && c.nodeRoot == "nodes"
    ensures RequestPrefix(c) == "/requests/" + IntToString(priority) + "-"
  {
    Client(connectionString, "requests", "requests-lock", "nodes", priority, credentialsId)
  }

  /** The two-argument constructor: priority 100, so requests are created
      under "/requests/100-". */
  function NewClient(connectionString: string, credentialsId: string): (c: Client)
    ensures c.connectionString == connectionString && c.credentialsId == credentialsId
    ensures c.priority == 100 && c.requestRoot == "requests"
    ensures c.requestLockRoot == "requests-lock" && c.nodeRoot == "nodes"
    ensures RequestPrefix(c) == "/requests/100-"
  {
    assert NatToString(1) == "1";
    assert NatToString(10) == "10";
    assert NatToString(100) == "100";
    NewClientWithPriority(connectionString, 100, credentialsId)
  }

  /** "/{requestRoot}/{priority}-", the prefix under which requests are created. */
  function RequestPrefix(c: Client): (prefix: string)
    ensures |prefix| >= 3 && prefix[0] == '/' && prefix[|prefix| - 1] == Dash
  {
    "/" + c.requestRoot + "/" + IntToString(c.priority) + "-"
  }

  /** A node NodePool allocated: its name and the path of its lock. */
  datatype Node = Node(name: string, lock: string)

  /** A request: the labels it asks for, the id and path it gets once it is
      written to the store, and the nodes NodePool allocated to it. */
  datatype NodeRequest = NodeRequest(
    connectionString: string,
    npLabel: string,
    jenkinsLabel: string,
    nodePoolID: Option<string>,
    nodePath: Option<string>,
    allocatedNodes: seq<Node>)

  // -----------------------------------------------------------------------
  // requestNode

  /** The request requestNode returns once the store assigned `path`: the
      id derived from the path and the path itself recorded on a fresh
      request, or the id error. */
  function Recorded(connectionString: string, npLabel: string, jenkinsLabel: string, path: string)
    : Result<NodeRequest, IdError>
  {
    match IdForPath(path)
    case Ok(id) => Ok(NodeRequest(connectionString, npLabel, jenkinsLabel, Some(id), Some(path), []))
    case Err(e) => Err(e)
  }

  /** Writes a new request under the request prefix and records the path the
      store assigned and the id derived from it. An id error propagates; the
      entry already created stays in the store. */
  method RequestNode(client: Client, store: CoordinationStore, npLabel: string, jenkinsLabel: string)
    returns (r: Result<NodeRequest, IdError>)
    modifies store
    ensures var path := RequestPrefix(client) + SequenceSuffix(old(store.sequence));
      && store.paths == old(store.paths) + {path}
      && store.sequence == old(store.sequence) + 1
      && store.locks == old(store.locks)
      && r == Recorded(client.connectionString, npLabel, jenkinsLabel, path)
  {
    var request := NodeRequest(client.connectionString, npLabel, jenkinsLabel, None, None, []);
    var createPath := RequestPrefix(client);
    var requestPath := store.CreateSequential(createPath);
    var id := IdForPath(requestPath);
    match id {
      case Err(e) =>
        r := Err(e);
      case Ok(v) =>
        request := request.(nodePoolID := Some(v));
        request := request.(nodePath := Some(requestPath));
        r := Ok(request);
    }
  }

  /** The id of a request created under any client's prefix is exactly the
      store's sequence suffix, so idForPath never fails there. */
  lemma RequestIdIsSequenceSuffix(c: Client, n: nat)
    ensures IdForPath(RequestPrefix(c) + SequenceSuffix(n)) == Ok(SequenceSuffix(n))
  {
    var prefix, suffix := RequestPrefix(c), SequenceSuffix(n);
    SequenceSuffixRoundTrip(n);
    assert Dash in prefix by { assert prefix[|prefix| - 1] == Dash; }
    assert prefix + suffix == prefix + suffix + [];
    IdOfCutPath(prefix, suffix, []);
  }

  /** requestNode never fails after creating its entry: the request it
      returns carries the store's sequence suffix as its id and the created
      path as its path, and has no nodes yet. */
  lemma RequestNodeIdentified(c: Client, n: nat, npLabel: string, jenkinsLabel: string)
    ensures var path := RequestPrefix(c) + SequenceSuffix(n);
      Recorded(c.connectionString, npLabel, jenkinsLabel, path) ==
        Ok(NodeRequest(c.connectionString, npLabel, jenkinsLabel, Some(SequenceSuffix(n)), Some(path), []))
  {
    RequestIdIsSequenceSuffix(c, n);
  }

  /** Requests created at different counter values get different ids,
      whatever the clients' roots and priorities. */
  lemma RequestIdsDistinct(c1: Client, c2: Client, m: nat, n: nat)
    requires m != n
    ensures IdForPath(RequestPrefix(c1) + SequenceSuffix(m)) != IdForPath(RequestPrefix(c2) + SequenceSuffix(n))
  {
    RequestIdIsSequenceSuffix(c1, m);
    RequestIdIsSequenceSuffix(c2, n);
    SequenceSuffixInjective(m, n);
  }

  // -----------------------------------------------------------------------
  // deleteNode

  /** The paths left after deleteNode: the path goes only when it is non-null
      and the store answers (a missing path changes nothing either way). */
  function PathsAfterDelete(paths: set<string>, path: Option<string>, reachable: bool): set<string>
  {
    if path.Some? && reachable then paths - {path.value} else paths
  }

  /** Best-effort delete: every store error is swallowed. */
  method DeleteNode(store: CoordinationStore, path: Option<string>, reachable: bool)
    modifies store`paths
    ensures store.paths == PathsAfterDelete(old(store.paths), path, reachable)
  {
    var error := store.Delete(path, reachable);
  }

  lemma DeleteNodeOnlyRemovesPath(paths: set<string>, path: Option<string>, reachable: bool)
    ensures PathsAfterDelete(paths, path, reachable) <= paths
    ensures forall p :: p in paths && Some(p) != path ==> p in PathsAfterDelete(paths, path, reachable)
    ensures path.Some? && reachable ==> path.value !in PathsAfterDelete(paths, path, reachable)
    ensures path.Some? && path.value !in paths ==> PathsAfterDelete(paths, path, reachable) == paths
  {
  }

  // -----------------------------------------------------------------------
  // acceptNodes: what it is specified to do

  /** A store call acceptNodes makes, by position in the allocated list. */
  datatype StoreCall = Acquire(node: nat) | GetData(node: nat) | Release(node: nat) | Delete(path: Option<string>)

  /** Where the locking loop stops: the first node whose lock is not granted
      or whose data cannot be read, or the number of nodes if there is none. */
  function FailIndex(granted: seq<bool>, readable: seq<bool>): (k: nat)
    requires |granted| == |readable|
    ensures k <= |granted|
    ensures forall i :: 0 <= i < k ==> granted[i] && readable[i]
    ensures k < |granted| ==> !(granted[k] && readable[k])
  {
    if granted == [] then 0
    else if !(granted[0] && readable[0]) then 0
    else 1 + FailIndex(granted[1..], readable[1..])
  }

  /** The lock paths of `ns`, in order. */
  function LocksOf(ns: seq<Node>): seq<string>
  {
    seq(|ns|, i requires 0 <= i < |ns| => ns[i].lock)
  }

  /** The lock paths of the nodes in `ns` whose release reaches the store. */
  function ReleasedLocks(ns: seq<Node>, reachable: seq<bool>): seq<string>
    requires |ns| <= |reachable|
  {
    if ns == [] then []
    else ReleasedLocks(ns[..|ns| - 1], reachable) + (if reachable[|ns| - 1] then [ns[|ns| - 1].lock] else [])
  }

  /** Acquire and read the first `k` nodes. */
  function SuccessCalls(k: nat): seq<StoreCall>
  {
    if k == 0 then [] else SuccessCalls(k - 1) + [Acquire(k - 1)] + [GetData(k - 1)]
  }

  /** Release the first `k` nodes, in order. */
  function ReleaseCalls(k: nat): seq<StoreCall>
  {
    if k == 0 then [] else ReleaseCalls(k - 1) + [Release(k - 1)]
  }

  /** The calls of the locking loop: each node up to the failing one. */
  function LockCalls(granted: seq<bool>, readable: seq<bool>): seq<StoreCall>
    requires |granted| == |readable|
  {
    var k := FailIndex(granted, readable);
    SuccessCalls(k) +
      (if k == |granted| then [] else if granted[k] then [Acquire(k), GetData(k)] else [Acquire(k)])
  }

  /** Every call acceptNodes makes: the locking loop, the rollback when the
      loop failed, and the delete in `finally`. Release outcomes do not appear
      among the arguments: a failed release never stops the next one. */
  function AcceptCalls(granted: seq<bool>, readable: seq<bool>, path: Option<string>): seq<StoreCall>
    requires |granted| == |readable|
  {
    var k := FailIndex(granted, readable);
    LockCalls(granted, readable) + (if k == |granted| then [] else ReleaseCalls(k)) + [Delete(path)]
  }

  /** The locks the locking loop acquires: every node before the failing
      one, and the failing one itself when only its data read failed. */
  function AcquiredLocks(nodes: seq<Node>, granted: seq<bool>, readable: seq<bool>): multiset<string>
    requires |granted| == |readable| == |nodes|
  {
    var k := FailIndex(granted, readable);
    multiset(LocksOf(nodes[..k])) + if k < |nodes| && granted[k] then multiset{nodes[k].lock} else multiset{}
  }

  /** The locks held after acceptNodes, starting from `held`. */
  function LocksAfterAccept(held: multiset<string>, nodes: seq<Node>, granted: seq<bool>,
                            readable: seq<bool>, reachable: seq<bool>): multiset<string>
    requires |granted| == |readable| == |reachable| == |nodes|
  {
    var k := FailIndex(granted, readable);
    if k == |nodes| then held + AcquiredLocks(nodes, granted, readable)
    else held + AcquiredLocks(nodes, granted, readable) - multiset(ReleasedLocks(nodes[..k], reachable))
  }

  // -----------------------------------------------------------------------
  // Facts about the lock lists

  lemma LocksOfPrefix(ns: seq<Node>, m: nat)
    requires m <= |ns|
    ensures LocksOf(ns[..m]) == LocksOf(ns)[..m]
  {
  }

  lemma LocksOfSnoc(ns: seq<Node>, m: nat)
    requires m < |ns|
    ensures LocksOf(ns[..m + 1]) == LocksOf(ns[..m]) + [ns[m].lock]
  {
  }

  lemma LocksOfLast(ns: seq<Node>)
    requires ns != []
    ensures LocksOf(ns) == LocksOf(ns[..|ns| - 1]) + [ns[|ns| - 1].lock]
  {
  }

  lemma ReleasedLocksSnoc(ns: seq<Node>, reachable: seq<bool>, m: nat)
    requires m < |ns| <= |reachable|
    ensures ReleasedLocks(ns[..m + 1], reachable) ==
              ReleasedLocks(ns[..m], reachable) + (if reachable[m] then [ns[m].lock] else [])
  {
    assert ns[..m + 1][..m] == ns[..m];
  }

  /** The released locks are among the locks of the nodes. */
  lemma {:induction false} ReleasedWithinLocks(ns: seq<Node>, reachable: seq<bool>)
    requires |ns| <= |reachable|
    ensures multiset(ReleasedLocks(ns, reachable)) <= multiset(LocksOf(ns))
    decreases |ns|
  {
    if ns != [] {
      ReleasedWithinLocks(ns[..|ns| - 1], reachable);
      LocksOfLast(ns);
    }
  }

  /** When every release reaches the store, every lock is released. */
  lemma {:induction false} AllReleased(ns: seq<Node>, reachable: seq<bool>)
    requires |ns| <= |reachable|
    requires forall j :: 0 <= j < |ns| ==> reachable[j]
    ensures ReleasedLocks(ns, reachable) == LocksOf(ns)
    decreases |ns|
  {
    if ns != [] {
      AllReleased(ns[..|ns| - 1], reachable);
      LocksOfLast(ns);
    }
  }

  /** A release that does not reach the store leaves one acquisition of its
      lock unreleased. */
  lemma {:induction false} UnreleasedLock(ns: seq<Node>, reachable: seq<bool>, j: nat)
    requires j < |ns| <= |reachable| && !reachable[j]
    ensures multiset(ReleasedLocks(ns, reachable))[ns[j].lock] < multiset(LocksOf(ns))[ns[j].lock]
    decreases |ns|
  {
    var front := ns[..|ns| - 1];
    var l := ns[j].lock;
    var released := if reachable[|ns| - 1] then [ns[|ns| - 1].lock] else [];
    LocksOfLast(ns);
    assert multiset(LocksOf(ns)) == multiset(LocksOf(front)) + multiset{ns[|ns| - 1].lock};
    assert multiset(ReleasedLocks(ns, reachable)) == multiset(ReleasedLocks(front, reachable)) + multiset(released);
    if j < |ns| - 1 {
      assert front[j] == ns[j];
      UnreleasedLock(front, reachable, j);
      assert multiset(released)[l] <= multiset{ns[|ns| - 1].lock}[l];
    } else {
      ReleasedWithinLocks(front, reachable);
      assert multiset(ReleasedLocks(front, reachable))[l] <= multiset(LocksOf(front))[l];
    }
  }

  lemma MultisetOfPrefix(s: seq<string>, m: nat)
    requires m <= |s|
    ensures multiset(s[..m]) <= multiset(s)
  {
    assert s == s[..m] + s[m..];
  }

  /** During the rollback, the lock of the next node to release is still held. */
  lemma NextLockStillHeld(held: multiset<string>, ns: seq<Node>, reachable: seq<bool>, j: nat)
    requires j < |ns| <= |reachable|
    requires multiset(LocksOf(ns)) <= held
    ensures ns[j].lock in held - multiset(ReleasedLocks(ns[..j], reachable))
  {
    var l := ns[j].lock;
    var released := multiset(ReleasedLocks(ns[..j], reachable));
    var before := multiset(LocksOf(ns[..j]));
    ReleasedWithinLocks(ns[..j], reachable);
    assert released[l] <= before[l];
    LocksOfSnoc(ns, j);
    LocksOfPrefix(ns, j + 1);
    MultisetOfPrefix(LocksOf(ns), j + 1);
    assert multiset(LocksOf(ns[..j + 1])) == before + multiset{l};
    assert held[l] >= before[l] + 1;
  }

  /** One turn of the rollback loop keeps its invariant. */
  lemma RollBackStep(held: multiset<string>, ns: seq<Node>, reachable: seq<bool>, j: nat,
                     before: multiset<string>, after: multiset<string>)
    requires j < |ns| <= |reachable|
    requires multiset(LocksOf(ns)) <= held
    requires before == held - multiset(ReleasedLocks(ns[..j], reachable))
    requires after == if ns[j].lock in before && reachable[j] then before - multiset{ns[j].lock} else before
    ensures ns[j].lock in before
    ensures after == held - multiset(ReleasedLocks(ns[..j + 1], reachable))
  {
    NextLockStillHeld(held, ns, reachable, j);
    ReleasedLocksSnoc(ns, reachable, j);
  }

  /** One turn of the locking loop keeps its invariant. */
  lemma LockStep(held: multiset<string>, ns: seq<Node>, i: nat, before: multiset<string>)
    requires i < |ns|
    requires before == held + multiset(LocksOf(ns[..i]))
    ensures before + multiset{ns[i].lock} == held + multiset(LocksOf(ns[..i + 1]))
  {
    LocksOfSnoc(ns, i);
  }

  /** The locking loop stops at node `i` when every earlier node succeeded
      and node `i` did not. */
  lemma StopsAt(nodes: seq<Node>, granted: seq<bool>, readable: seq<bool>, i: nat)
    requires |granted| == |readable| == |nodes|
    requires i < |nodes| && !(granted[i] && readable[i])
    requires i <= FailIndex(granted, readable)
    ensures FailIndex(granted, readable) == i
    ensures LockCalls(granted, readable) ==
              SuccessCalls(i) + if granted[i] then [Acquire(i), GetData(i)] else [Acquire(i)]
    ensures AcquiredLocks(nodes, granted, readable) ==
              multiset(LocksOf(nodes[..i])) + if granted[i] then multiset{nodes[i].lock} else multiset{}
  {
  }

  /** One more node locked and read: the loop's invariant moves on by one. */
  lemma SuccessStep(nodes: seq<Node>, granted: seq<bool>, readable: seq<bool>, i: nat)
    requires |granted| == |readable| == |nodes|
    requires i < |nodes| && granted[i] && readable[i]
    requires i <= FailIndex(granted, readable)
    ensures i + 1 <= FailIndex(granted, readable)
    ensures SuccessCalls(i + 1) == SuccessCalls(i) + [Acquire(i)] + [GetData(i)]
    ensures nodes[..i + 1] == nodes[..i] + [nodes[i]]
  {
    assert SuccessCalls(i) + [Acquire(i)] + [GetData(i)] == SuccessCalls(i) + [Acquire(i), GetData(i)];
  }

  /** The locking loop runs to the end when every node succeeds. */
  lemma RunsToEnd(nodes: seq<Node>, granted: seq<bool>, readable: seq<bool>)
    requires |granted| == |readable| == |nodes|
    requires |nodes| <= FailIndex(granted, readable)
    ensures FailIndex(granted, readable) == |nodes|
    ensures LockCalls(granted, readable) == SuccessCalls(|nodes|)
    ensures AcquiredLocks(nodes, granted, readable) == multiset(LocksOf(nodes[..|nodes|]))
  {
  }

  /** After the locking loop, the locks of the accepted nodes are held. */
  lemma AcceptedLocksHeld(held: multiset<string>, nodes: seq<Node>, granted: seq<bool>, readable: seq<bool>)
    requires |granted| == |readable| == |nodes|
    ensures multiset(LocksOf(nodes[..FailIndex(granted, readable)])) <= held + AcquiredLocks(nodes, granted, readable)
  {
  }

  /** The state after a failed locking loop and the rollback that follows. */
  lemma RolledBack(held: multiset<string>, nodes: seq<Node>, granted: seq<bool>, readable: seq<bool>,
                   reachable: seq<bool>, locked: multiset<string>, after: multiset<string>, path: Option<string>)
    requires |granted| == |readable| == |reachable| == |nodes|
    requires FailIndex(granted, readable) < |nodes|
    requires locked == held + AcquiredLocks(nodes, granted, readable)
    requires after == locked - multiset(ReleasedLocks(nodes[..FailIndex(granted, readable)], reachable))
    ensures after == LocksAfterAccept(held, nodes, granted, readable, reachable)
    ensures LockCalls(granted, readable) + ReleaseCalls(FailIndex(granted, readable)) + [Delete(path)] ==
              AcceptCalls(granted, readable, path)
  {
  }

  /** The state after a locking loop that locked every node. */
  lemma RanToEnd(held: multiset<string>, nodes: seq<Node>, granted: seq<bool>, readable: seq<bool>,
                 reachable: seq<bool>, path: Option<string>)
    requires |granted| == |readable| == |reachable| == |nodes|
    requires FailIndex(granted, readable) == |nodes|
    ensures held + AcquiredLocks(nodes, granted, readable) == LocksAfterAccept(held, nodes, granted, readable, reachable)
    ensures LockCalls(granted, readable) + [Delete(path)] == AcceptCalls(granted, readable, path)
  {
  }

  // -----------------------------------------------------------------------
  // acceptNodes

  /** The body of acceptNodes' `try`: locks the nodes in order and stops at
      the first lock or data read that throws. */
  method LockInOrder(store: CoordinationStore, nodes: seq<Node>, granted: seq<bool>, readable: seq<bool>)
    returns (acceptedNodes: seq<Node>, calls: seq<StoreCall>, failed: bool)
    requires |granted| == |readable| == |nodes|
    modifies store`locks
    ensures acceptedNodes == nodes[..FailIndex(granted, readable)]
    ensures failed <==> FailIndex(granted, readable) < |nodes|
    ensures calls == LockCalls(granted, readable)
    ensures store.locks == old(store.locks) + AcquiredLocks(nodes, granted, readable)
  {
    acceptedNodes := [];
    calls := [];
    failed := false;
    ghost var held := store.locks;
    var i := 0;
    while i < |nodes|
      invariant 0 <= i <= |nodes|
      invariant i <= FailIndex(granted, readable)
      invariant acceptedNodes == nodes[..i]
      invariant calls == SuccessCalls(i)
      invariant store.locks == held + multiset(LocksOf(nodes[..i]))
    {
      calls := calls + [Acquire(i)];
      ghost var before := store.locks;
      var lockError := store.Acquire(nodes[i].lock, granted[i]);
      if lockError.Some? {
        StopsAt(nodes, granted, readable, i);
        failed := true;
        break;
      }
      calls := calls + [GetData(i)];
      if !readable[i] {
        StopsAt(nodes, granted, readable, i);
        failed := true;
        break;
      }
      LockStep(held, nodes, i, before);
      SuccessStep(nodes, granted, readable, i);
      acceptedNodes := acceptedNodes + [nodes[i]];
      i := i + 1;
    }
    if !failed {
      RunsToEnd(nodes, granted, readable);
    }
  }

  /** The body of acceptNodes' `catch`: releases each accepted node once, in
      order, ignoring release failures. */
  method RollBack(store: CoordinationStore, acceptedNodes: seq<Node>, reachable: seq<bool>)
    returns (calls: seq<StoreCall>)
    requires |acceptedNodes| <= |reachable|
    requires multiset(LocksOf(acceptedNodes)) <= store.locks
    modifies store`locks
    ensures calls == ReleaseCalls(|acceptedNodes|)
    ensures store.locks == old(store.locks) - multiset(ReleasedLocks(acceptedNodes, reachable))
  {
    calls := [];
    ghost var held := store.locks;
    var j := 0;
    while j < |acceptedNodes|
      invariant 0 <= j <= |acceptedNodes|
      invariant calls == ReleaseCalls(j)
      invariant store.locks == held - multiset(ReleasedLocks(acceptedNodes[..j], reachable))
    {
      assert ReleaseCalls(j + 1) == ReleaseCalls(j) + [Release(j)];
      calls := calls + [Release(j)];
      ghost var before := store.locks;
      var releaseError := store.Release(acceptedNodes[j].lock, reachable[j]);
      RollBackStep(held, acceptedNodes, reachable, j, before, store.locks);
      j := j + 1;
    }
    assert acceptedNodes[..j] == acceptedNodes;
  }

  /** acceptNodes: locks the allocated nodes in order; on the first failure
      releases every node accepted so far, carrying on past failed releases;
      always deletes the request; and returns the nodes accepted before any
      failure. */
  method AcceptNodes(store: CoordinationStore, request: NodeRequest, granted: seq<bool>, readable: seq<bool>,
                     releaseReachable: seq<bool>, deleteReachable: bool)
    returns (acceptedNodes: seq<Node>, calls: seq<StoreCall>)
    requires |granted| == |readable| == |releaseReachable| == |request.allocatedNodes|
    modifies store`locks, store`paths
    ensures acceptedNodes == request.allocatedNodes[..FailIndex(granted, readable)]
    ensures calls == AcceptCalls(granted, readable, request.nodePath)
    ensures store.locks ==
              LocksAfterAccept(old(store.locks), request.allocatedNodes, granted, readable, releaseReachable)
    ensures store.paths == PathsAfterDelete(old(store.paths), request.nodePath, deleteReachable)
    ensures store.sequence == old(store.sequence)
  {
    var nodes := request.allocatedNodes;
    ghost var held := store.locks;
    var failed;
    acceptedNodes, calls, failed := LockInOrder(store, nodes, granted, readable);
    ghost var locked := store.locks;
    ghost var lockCalls := calls;
    if failed {
      AcceptedLocksHeld(held, nodes, granted, readable);
      var releaseCalls := RollBack(store, acceptedNodes, releaseReachable);
      calls := calls + releaseCalls;
      RolledBack(held, nodes, granted, readable, releaseReachable, locked, store.locks, request.nodePath);
    } else {
      RanToEnd(held, nodes, granted, readable, releaseReachable, request.nodePath);
    }
    calls := calls + [Delete(request.nodePath)];
    DeleteNode(store, request.nodePath, deleteReachable);
  }

  // -----------------------------------------------------------------------
  // acceptNodes: what the call trace guarantees

  lemma {:induction false} SuccessCallsLength(k: nat)
    ensures |SuccessCalls(k)| == 2 * k
  {
    if k > 0 {
      SuccessCallsLength(k - 1);
    }
  }

  lemma {:induction false} ReleaseCallsLength(k: nat)
    ensures |ReleaseCalls(k)| == k
  {
    if k > 0 {
      ReleaseCallsLength(k - 1);
    }
  }

  /** The locking loop acquires node `i`, then reads it, before node `i + 1`. */
  lemma {:induction false} SuccessCallsAt(k: nat, i: nat)
    requires i < k
    ensures |SuccessCalls(k)| == 2 * k
    ensures SuccessCalls(k)[2 * i] == Acquire(i) && SuccessCalls(k)[2 * i + 1] == GetData(i)
  {
    SuccessCallsLength(k);
    SuccessCallsLength(k - 1);
    if i < k - 1 {
      SuccessCallsAt(k - 1, i);
    }
  }

  /** The rollback releases node `j` as its `j`-th call. */
  lemma {:induction false} ReleaseCallsAt(k: nat, j: nat)
    requires j < k
    ensures |ReleaseCalls(k)| == k
    ensures ReleaseCalls(k)[j] == Release(j)
  {
    ReleaseCallsLength(k);
    ReleaseCallsLength(k - 1);
    if j < k - 1 {
      ReleaseCallsAt(k - 1, j);
    }
  }

  /** How many times `c` occurs in `calls`. */
  function Occurrences(calls: seq<StoreCall>, c: StoreCall): nat
  {
    if calls == [] then 0
    else Occurrences(calls[..|calls| - 1], c) + if calls[|calls| - 1] == c then 1 else 0
  }

  lemma OccurrencesSnoc(s: seq<StoreCall>, x: StoreCall, c: StoreCall)
    ensures Occurrences(s + [x], c) == Occurrences(s, c) + if x == c then 1 else 0
  {
    assert (s + [x])[..|s|] == s;
  }

  lemma {:induction false} OccurrencesAppend(s: seq<StoreCall>, t: seq<StoreCall>, c: StoreCall)
    ensures Occurrences(s + t, c) == Occurrences(s, c) + Occurrences(t, c)
    decreases |t|
  {
    if t != [] {
      var front := t[..|t| - 1];
      assert s + t == (s + front) + [t[|t| - 1]];
      assert t == front + [t[|t| - 1]];
      OccurrencesAppend(s, front, c);
      OccurrencesSnoc(s + front, t[|t| - 1], c);
      OccurrencesSnoc(front, t[|t| - 1], c);
    } else {
      assert s + t == s;
    }
  }

  /** The locking loop acquires and reads each of the first `k` nodes
      exactly once, and makes no other call. */
  lemma {:induction false} SuccessCallsCount(k: nat, c: StoreCall)
    ensures Occurrences(SuccessCalls(k), c) == if (c.Acquire? || c.GetData?) && c.node < k then 1 else 0
  {
    if k > 0 {
      SuccessCallsCount(k - 1, c);
      var front := SuccessCalls(k - 1);
      OccurrencesSnoc(front, Acquire(k - 1), c);
      OccurrencesSnoc(front + [Acquire(k - 1)], GetData(k - 1), c);
    }
  }

  /** The rollback releases each of the first `k` nodes exactly once. */
  lemma {:induction false} ReleaseCallsCount(k: nat, c: StoreCall)
    ensures Occurrences(ReleaseCalls(k), c) == if c.Release? && c.node < k then 1 else 0
  {
    if k > 0 {
      ReleaseCallsCount(k - 1, c);
      OccurrencesSnoc(ReleaseCalls(k - 1), Release(k - 1), c);
    }
  }

  /** The calls made for the failing node: its acquire, and its read when
      the lock was granted. */
  lemma FailedNodeCalls(k: nat, granted: bool, c: StoreCall)
    ensures Occurrences(if granted then [Acquire(k), GetData(k)] else [Acquire(k)], c) ==
              (if c == Acquire(k) then 1 else 0) + (if granted && c == GetData(k) then 1 else 0)
  {
    OccurrencesSnoc([], Acquire(k), c);
    assert [] + [Acquire(k)] == [Acquire(k)];
    OccurrencesSnoc([Acquire(k)], GetData(k), c);
    assert [Acquire(k)] + [GetData(k)] == [Acquire(k), GetData(k)];
  }

  /** The calls of the locking loop: the successful nodes, then the failing
      node's acquire, and its read when the lock was granted. */
  lemma LockCallsCount(granted: seq<bool>, readable: seq<bool>, c: StoreCall)
    requires |granted| == |readable|
    ensures var k := FailIndex(granted, readable);
      Occurrences(LockCalls(granted, readable), c) ==
        Occurrences(SuccessCalls(k), c) +
          if k == |granted| then 0
          else (if c == Acquire(k) then 1 else 0) + (if granted[k] && c == GetData(k) then 1 else 0)
  {
    var k := FailIndex(granted, readable);
    if k < |granted| {
      var tail := if granted[k] then [Acquire(k), GetData(k)] else [Acquire(k)];
      OccurrencesAppend(SuccessCalls(k), tail, c);
      FailedNodeCalls(k, granted[k], c);
    } else {
      assert LockCalls(granted, readable) == SuccessCalls(k);
    }
  }

  /** The calls of acceptNodes, counted part by part. */
  lemma AcceptCallsSum(granted: seq<bool>, readable: seq<bool>, path: Option<string>, c: StoreCall)
    requires |granted| == |readable|
    ensures var k := FailIndex(granted, readable);
      Occurrences(AcceptCalls(granted, readable, path), c) ==
        Occurrences(LockCalls(granted, readable), c) +
        (if k == |granted| then 0 else Occurrences(ReleaseCalls(k), c)) +
        (if Delete(path) == c then 1 else 0)
  {
    var k := FailIndex(granted, readable);
    var rollback := if k == |granted| then [] else ReleaseCalls(k);
    OccurrencesAppend(LockCalls(granted, readable), rollback, c);
    OccurrencesAppend(LockCalls(granted, readable) + rollback, [Delete(path)], c);
    OccurrencesSnoc([], Delete(path), c);
    assert [] + [Delete(path)] == [Delete(path)];
  }

  /** How often acceptNodes makes each store call. Nodes after the failing
      one are never acquired; the failing one is read only when its lock was
      granted; the release of each accepted node is attempted exactly once,
      and only after a failure; the request's delete happens exactly once on
      every outcome. */
  lemma AcceptCallsCount(granted: seq<bool>, readable: seq<bool>, path: Option<string>, c: StoreCall)
    requires |granted| == |readable|
    ensures var k := FailIndex(granted, readable);
      Occurrences(AcceptCalls(granted, readable, path), c) ==
        match c
        case Acquire(i) => if i <= k && i < |granted| then 1 else 0
        case GetData(i) => if i < k || (i == k < |granted| && granted[k]) then 1 else 0
        case Release(j) => if j < k < |granted| then 1 else 0
        case Delete(p) => if p == path then 1 else 0
  {
    var k := FailIndex(granted, readable);
    AcceptCallsSum(granted, readable, path, c);
    LockCallsCount(granted, readable, c);
    SuccessCallsCount(k, c);
    ReleaseCallsCount(k, c);
  }

  /** The order of the calls: node `i`'s acquire is call `2 i`, its read the
      next one, so nodes are locked in list order. */
  lemma LockCallAt(granted: seq<bool>, readable: seq<bool>, path: Option<string>, i: nat)
    requires |granted| == |readable|
    requires i < |granted| && i <= FailIndex(granted, readable)
    ensures var calls := AcceptCalls(granted, readable, path);
      && 2 * i + 1 < |calls|
      && calls[2 * i] == Acquire(i)
      && (i < FailIndex(granted, readable) || granted[i] ==> calls[2 * i + 1] == GetData(i))
  {
    var k := FailIndex(granted, readable);
    SuccessCallsLength(k);
    if i < k {
      SuccessCallsAt(k, i);
    }
  }

  /** After a failure at node `k`, the releases follow the failed call, in
      the order the nodes were accepted. */
  lemma ReleaseCallAt(granted: seq<bool>, readable: seq<bool>, path: Option<string>, j: nat)
    requires |granted| == |readable|
    requires j < FailIndex(granted, readable) < |granted|
    ensures var k := FailIndex(granted, readable);
      var calls := AcceptCalls(granted, readable, path);
      var start := 2 * k + if granted[k] then 2 else 1;
      && start + j < |calls|
      && calls[start + j] == Release(j)
  {
    var k := FailIndex(granted, readable);
    SuccessCallsLength(k);
    ReleaseCallsAt(k, j);
  }

  /** The delete of the request is the last call. */
  lemma DeleteIsLast(granted: seq<bool>, readable: seq<bool>, path: Option<string>)
    requires |granted| == |readable|
    ensures var calls := AcceptCalls(granted, readable, path);
      calls != [] && calls[|calls| - 1] == Delete(path)
  {
  }

  // -----------------------------------------------------------------------
  // acceptNodes: which locks end up held

  /** acceptNodes accepts every allocated node exactly when every lock and
      read succeeds, and then holds each of their locks once more. */
  lemma AcceptAllSucceeded(held: multiset<string>, nodes: seq<Node>, granted: seq<bool>, readable: seq<bool>,
                           reachable: seq<bool>)
    requires |granted| == |readable| == |reachable| == |nodes|
    ensures nodes[..FailIndex(granted, readable)] == nodes <==>
              forall i :: 0 <= i < |nodes| ==> granted[i] && readable[i]
    ensures (forall i :: 0 <= i < |nodes| ==> granted[i] && readable[i]) ==>
              LocksAfterAccept(held, nodes, granted, readable, reachable) == held + multiset(LocksOf(nodes))
  {
    var k := FailIndex(granted, readable);
    if k < |nodes| {
      assert |nodes[..k]| < |nodes|;
    } else {
      assert nodes[..k] == nodes;
    }
  }

  /** Every lock held before acceptNodes is still held after it: the
      rollback releases only locks the loop acquired. */
  lemma AcceptKeepsHeldLocks(held: multiset<string>, nodes: seq<Node>, granted: seq<bool>, readable: seq<bool>,
                             reachable: seq<bool>)
    requires |granted| == |readable| == |reachable| == |nodes|
    ensures held <= LocksAfterAccept(held, nodes, granted, readable, reachable)
  {
    var k := FailIndex(granted, readable);
    if k < |nodes| {
      var acquired := AcquiredLocks(nodes, granted, readable);
      var released := multiset(ReleasedLocks(nodes[..k], reachable));
      ReleasedWithinLocks(nodes[..k], reachable);
      assert released <= acquired;
      assert held <= held + acquired - released;
    }
  }

  /** When a lock is refused and every release reaches the store, the locks
      are as before, yet the returned list still holds the nodes accepted
      before the failure. */
  lemma AcquireFailureReleasesAll(held: multiset<string>, nodes: seq<Node>, granted: seq<bool>,
                                  readable: seq<bool>, reachable: seq<bool>)
    requires |granted| == |readable| == |reachable| == |nodes|
    requires FailIndex(granted, readable) < |nodes| && !granted[FailIndex(granted, readable)]
    requires forall j :: 0 <= j < |nodes| ==> reachable[j]
    ensures LocksAfterAccept(held, nodes, granted, readable, reachable) == held
    ensures FailIndex(granted, readable) > 0 ==> nodes[..FailIndex(granted, readable)] != []
    ensures forall j :: 0 <= j < FailIndex(granted, readable) ==>
              LocksAfterAccept(held, nodes, granted, readable, reachable)[nodes[j].lock] == held[nodes[j].lock]
  {
    var k := FailIndex(granted, readable);
    AllReleased(nodes[..k], reachable);
  }

  /** When a node's lock is granted but its data cannot be read, the node is
      not accepted, so the rollback never releases its lock: it stays held
      once more than before, even when every release reaches the store. */
  lemma GetDataFailureLeaksLock(held: multiset<string>, nodes: seq<Node>, granted: seq<bool>,
                                readable: seq<bool>, reachable: seq<bool>)
    requires |granted| == |readable| == |reachable| == |nodes|
    requires FailIndex(granted, readable) < |nodes| && granted[FailIndex(granted, readable)]
    ensures var l := nodes[FailIndex(granted, readable)].lock;
      LocksAfterAccept(held, nodes, granted, readable, reachable)[l] >= held[l] + 1
    ensures (forall j :: 0 <= j < |nodes| ==> reachable[j]) ==>
              LocksAfterAccept(held, nodes, granted, readable, reachable) ==
                held + multiset{nodes[FailIndex(granted, readable)].lock}
  {
    var k := FailIndex(granted, readable);
    var l := nodes[k].lock;
    ReleasedWithinLocks(nodes[..k], reachable);
    var released := multiset(ReleasedLocks(nodes[..k], reachable));
    var accepted := multiset(LocksOf(nodes[..k]));
    assert AcquiredLocks(nodes, granted, readable) == accepted + multiset{l};
    assert LocksAfterAccept(held, nodes, granted, readable, reachable) == held + (accepted + multiset{l}) - released;
    assert released[l] <= accepted[l];
    if forall j :: 0 <= j < |nodes| ==> reachable[j] {
      AllReleased(nodes[..k], reachable);
      assert released == accepted;
    }
  }

  /** A release that fails leaves that node's lock held once more than
      before acceptNodes. */
  lemma ReleaseFailureKeepsLock(held: multiset<string>, nodes: seq<Node>, granted: seq<bool>,
                                readable: seq<bool>, reachable: seq<bool>, j: nat)
    requires |granted| == |readable| == |reachable| == |nodes|
    requires j < FailIndex(granted, readable) < |nodes| && !reachable[j]
    ensures LocksAfterAccept(held, nodes, granted, readable, reachable)[nodes[j].lock] > held[nodes[j].lock]
  {
    var k := FailIndex(granted, readable);
    assert nodes[..k][j] == nodes[j];
    UnreleasedLock(nodes[..k], reachable, j);
  }

  /** Three allocated nodes, the second lock refused, every release
      answered: the first node is locked, read and released again, the third
      is never tried, the request is deleted, no lock is left held, and the
      returned list still holds the first node. */
  lemma SecondOfThreeLocksRefused(held: multiset<string>, a: Node, b: Node, c: Node, path: Option<string>)
    ensures var nodes, granted, readable := [a, b, c], [true, false, true], [true, true, true];
      && FailIndex(granted, readable) == 1
      && nodes[..FailIndex(granted, readable)] == [a]
      && AcceptCalls(granted, readable, path) == [Acquire(0), GetData(0), Acquire(1), Release(0), Delete(path)]
      && LocksAfterAccept(held, nodes, granted, readable, [true, true, true]) == held
  {
    var nodes, granted, readable := [a, b, c], [true, false, true], [true, true, true];
    assert FailIndex(granted[1..], readable[1..]) == 0;
    assert SuccessCalls(1) == [] + [Acquire(0)] + [GetData(0)];
    assert LockCalls(granted, readable) == [Acquire(0), GetData(0), Acquire(1)];
    assert ReleaseCalls(1) == [] + [Release(0)];
    assert nodes[..1] == [a];
    assert LocksOf([a]) == [a.lock];
    assert ReleasedLocks([a], [true, true, true]) == [] + [a.lock];
    assert AcquiredLocks(nodes, granted, readable) == multiset{a.lock};
  }
}
