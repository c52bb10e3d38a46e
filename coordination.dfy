/** The coordination store (ZooKeeper behind Curator) as seen by one client
    session: the paths that exist, the locks this session holds, and the
    counter from which sequential node names are made. Failures the network
    could cause are inputs to each call. */
module Coordination {
  import opened Wrappers
  import opened JavaStrings

  /** The suffix ZooKeeper appends to a sequential node: the parent's counter
      formatted with "%010d". */
  function SequenceSuffix(n: nat): (s: string)
    ensures |s| >= 10 && IsDigits(s)
    ensures |NatToString(n)| < 10 ==> |s| == 10
    ensures |NatToString(n)| >= 10 ==> s == NatToString(n)
  {
    var digits := NatToString(n);
    if |digits| < 10 then Zeros(10 - |digits|) + digits else digits
  }

  /** The suffix is at least ten decimal digits and reads back as the counter. */
  lemma SequenceSuffixRoundTrip(n: nat)
    ensures |SequenceSuffix(n)| >= 10 && IsDigits(SequenceSuffix(n))
    ensures ParseDigits(SequenceSuffix(n)) == n
  {
    var digits := NatToString(n);
    ParseNatToString(n);
    if |digits| < 10 {
      ParseLeadingZeros(Zeros(10 - |digits|), digits);
    }
  }

  /** Counter value 1 gives the suffix "0000000001". */
  lemma SequenceSuffixOfOne()
    ensures SequenceSuffix(1) == "0000000001"
  {
    assert NatToString(1) == "1";
    assert Zeros(9) == "000000000";
  }

  /** Different counter values give different node names. */
  lemma SequenceSuffixInjective(m: nat, n: nat)
    requires m != n
    ensures SequenceSuffix(m) != SequenceSuffix(n)
  {
    SequenceSuffixRoundTrip(m);
    SequenceSuffixRoundTrip(n);
  }

  /** Why a store call threw. */
  datatype StoreError =
    | NoNode(path: string)         // the path does not exist
    | IllegalArgument              // a null path
    | ConnectionLoss               // the session could not reach the store
    | NotLockOwner(lock: string)   // releasing a lock this session does not hold

  class CoordinationStore {
    /** The paths that exist in the store. */
    var paths: set<string>
    /** The locks this session holds, counted with re-entry (Curator's
        InterProcessMutex is re-entrant). */
    var locks: multiset<string>
    /** The counter for the next sequential node. */
    var sequence: nat

    constructor ()
      ensures paths == {} && locks == multiset{} && sequence == 0
    {
      paths, locks, sequence := {}, multiset{}, 0;
    }

    /** create().withMode(EPHEMERAL_SEQUENTIAL).forPath(prefix): the new path
        is the prefix followed by the counter. */
    method CreateSequential(prefix: string) returns (path: string)
      modifies this
      ensures path == prefix + SequenceSuffix(old(sequence))
      ensures paths == old(paths) + {path}
      ensures sequence == old(sequence) + 1 && locks == old(locks)
    {
      path := prefix + SequenceSuffix(sequence);
      paths := paths + {path};
      sequence := sequence + 1;
    }

    /** delete().forPath(path); `reachable` says whether the store answered. */
    method Delete(path: Option<string>, reachable: bool) returns (error: Option<StoreError>)
      modifies this`paths
      ensures error == if path.None? then Some(IllegalArgument)
                       else if !reachable then Some(ConnectionLoss)
                       else if path.value !in old(paths) then Some(NoNode(path.value))
                       else None
      ensures paths == if error.None? then old(paths) - {path.value} else old(paths)
    {
      if path.None? {
        error := Some(IllegalArgument);
      } else if !reachable {
        error := Some(ConnectionLoss);
      } else if path.value !in paths {
        error := Some(NoNode(path.value));
      } else {
        paths := paths - {path.value};
        error := None;
      }
    }

    /** InterProcessMutex.acquire(); `granted` says whether it returned. */
    method Acquire(lock: string, granted: bool) returns (error: Option<StoreError>)
      modifies this`locks
      ensures error == if granted then None else Some(ConnectionLoss)
      ensures locks == if granted then old(locks) + multiset{lock} else old(locks)
    {
      if granted {
        locks := locks + multiset{lock};
        error := None;
      } else {
        error := Some(ConnectionLoss);
      }
    }

    /** InterProcessMutex.release(): fails when this session does not hold
        the lock or the store cannot be reached. */
    method Release(lock: string, reachable: bool) returns (error: Option<StoreError>)
      modifies this`locks
      ensures error == if lock !in old(locks) then Some(NotLockOwner(lock))
                       else if !reachable then Some(ConnectionLoss)
                       else None
      ensures locks == if error.None? then old(locks) - multiset{lock} else old(locks)
    {
      if lock !in locks {
        error := Some(NotLockOwner(lock));
      } else if !reachable {
        error := Some(ConnectionLoss);
      } else {
        locks := locks - multiset{lock};
        error := None;
      }
    }
  }
}
