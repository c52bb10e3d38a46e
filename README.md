# NodePoolClient: request ids, requests and node acceptance

This project models the client side of the Jenkins NodePool agents plugin
(`NodePoolClient`). Jenkins uses it to ask NodePool for build nodes through
ZooKeeper, and then to claim the nodes NodePool allocated. The model is in
Dafny and proves properties of the following parts:

- **Request ids (`idForPath`).** The id of a request is the last piece of
  the request path after Java's `String.split("-")`. The split is modelled
  as Java defines it: trailing empty pieces are dropped and leading ones
  are kept. A path with no `-` is refused with `NodePoolException`. A path
  made only of dashes splits into nothing, so `parts.get(-1)` fails with an
  index error. (`java_strings.dfy`, `request_id.dfy`)
- **The coordination store.** ZooKeeper behind Curator is modelled as a
  class with three fields:
  - the set of paths that exist;
  - the locks this session holds, as a multiset because Curator's
    `InterProcessMutex` is re-entrant;
  - the counter that supplies the `%010d` suffix of sequential nodes.

  Whether each store call reaches the store is an input. So are whether a
  lock is granted and whether a node's data can be read.
  (`coordination.dfy`)
- **The client.** This covers three things (`node_pool.dfy`):
  - its constructor defaults;
  - `requestNode`, which creates `/<requestRoot>/<priority>-` plus the
    sequence suffix and records the derived id and the path;
  - `acceptNodes` and `deleteNode`, covered in the next bullets.
- **`acceptNodes`.** It locks the allocated nodes in list order and reads
  each node's data. The first failure stops the loop. The method then
  releases the lock of every node already accepted, once each and in
  order, and a failed release does not stop the next one. Finally it
  deletes the request path and returns the accepted list.
  - Each store call it makes is recorded as an entry of a call trace, so
    "attempted exactly once", "never attempted" and "in order" can be
    stated.
  - The locks it leaves held are given by a specification function of the
    inputs.
- **`deleteNode`.** It swallows every store error.

A caller might expect `acceptNodes` to return an empty list and hold no
lock when it fails. The code does neither, and lemmas exhibit both:

- On failure the code returns the nodes accepted before the failure, even
  though their locks were just released (`AcquireFailureReleasesAll`,
  `SecondOfThreeLocksRefused`).
- When a node's lock is granted but reading its data throws, the node was
  never added to the accepted list. The rollback therefore never releases
  that lock (`GetDataFailureLeaksLock`).

One more detail of the code is modelled as written. The three-argument
constructor assigns `this.requestRoot = requestRoot`, which is a
self-assignment (NodePoolClient.java line 79). The root therefore keeps its
field initialiser, `"requests"`.

## Model

| member | source | states |
|---|---|---|
| JavaStrings.Split | src/main/java/com/rackspace/jenkins_nodepool/NodePoolClient.java:110 | `String.split` with a one-character separator and limit 0. A string without the separator gives itself alone. No piece contains the separator. When the separator occurs, the result is empty or ends in a non-empty piece, because trailing empty pieces are dropped. Joining the pieces with the separator gives back the string up to a run of trailing separators, so the pieces are exactly the substrings between separators. |
| JavaStrings.IntToString | src/main/java/com/rackspace/jenkins_nodepool/NodePoolClient.java:126 | `Integer.toString`: a non-negative value gives decimal digits that read back as the value; a negative one gives `-` followed by digits that read back as its magnitude. The text is canonical: it is never empty, it starts with `0` only for the value 0, and a minus sign is never followed by `0`. The text contains `-` exactly when the value is negative, so a negative priority puts a second dash in the create prefix. |
| RequestId.IdForPath | src/main/java/com/rackspace/jenkins_nodepool/NodePoolClient.java:108-116 | idForPath raises NodePoolException exactly when the path has no `-`. Its only other failure is the index error of `parts.get(-1)`. An id it returns is non-empty and has no `-`. |
| RequestId.IdForPathCharacterization | src/main/java/com/rackspace/jenkins_nodepool/NodePoolClient.java:108-116 | idForPath returns `id` exactly when the path is `prefix + id + trailing`, where:<br>• `prefix` is empty or ends in `-`;<br>• `id` is non-empty and has no `-`;<br>• `trailing` is all dashes;<br>• the path has a `-`.<br>So the id is the last non-empty `-`-free piece of the whole path. |
| RequestId.IdOfCutPath | src/main/java/com/rackspace/jenkins_nodepool/NodePoolClient.java:109-111 | Any path built from such a cut yields exactly that id. |
| RequestId.IdForPathIndexErrorExactly | src/main/java/com/rackspace/jenkins_nodepool/NodePoolClient.java:110-111 | `parts.get(-1)` fails exactly when the path has a `-` and consists only of dashes. |
| RequestId.IdOfRequestPath | src/main/java/com/rackspace/jenkins_nodepool/NodePoolClient.java:110-111 | `/requests/100-0000000001` gives `0000000001`. |
| RequestId.IdIgnoresTrailingDashes | src/main/java/com/rackspace/jenkins_nodepool/NodePoolClient.java:110-111 | `a-b-` gives `b`, because split drops trailing empty pieces. |
| RequestId.IdSpansSegments | src/main/java/com/rackspace/jenkins_nodepool/NodePoolClient.java:110-111 | The whole path is split, not only its last segment: `/requests-lock/0000000001` gives `lock/0000000001`. |
| RequestId.IdOfLoneDash | src/main/java/com/rackspace/jenkins_nodepool/NodePoolClient.java:110-111 | `-` splits into nothing and gives the index error, not NodePoolException. |
| Coordination.SequenceSuffix | src/main/java/com/rackspace/jenkins_nodepool/NodePoolClient.java:128-131 | The `%010d` suffix a sequential create appends is all decimal digits: exactly ten when the counter has fewer than ten digits, otherwise the counter's own digits. |
| Coordination.SequenceSuffixOfOne | src/main/java/com/rackspace/jenkins_nodepool/NodePoolClient.java:128-131 | Counter value 1 gives the suffix `0000000001`. |
| Coordination.SequenceSuffixRoundTrip | src/main/java/com/rackspace/jenkins_nodepool/NodePoolClient.java:128-131 | The sequential suffix has at least ten decimal digits and reads back as the counter. |
| Coordination.SequenceSuffixInjective | src/main/java/com/rackspace/jenkins_nodepool/NodePoolClient.java:128-131 | Different counter values give different suffixes. |
| Coordination.CoordinationStore.CreateSequential | src/main/java/com/rackspace/jenkins_nodepool/NodePoolClient.java:128-131 | The created path is the prefix followed by the counter's suffix. The path is added, the counter moves on by one, and the locks are unchanged. |
| Coordination.CoordinationStore.Delete | src/main/java/com/rackspace/jenkins_nodepool/NodePoolClient.java:212 | A null path, an unreachable store and a missing path each raise their own error, checked in that order. Otherwise exactly that path is removed. |
| Coordination.CoordinationStore.Acquire | src/main/java/com/rackspace/jenkins_nodepool/NodePoolClient.java:180 | A granted lock is held once more. A refused one raises an error and changes nothing. |
| Coordination.CoordinationStore.Release | src/main/java/com/rackspace/jenkins_nodepool/NodePoolClient.java:194 | Releasing a lock this session does not hold raises an error, and so does an unreachable store. Otherwise one hold of the lock is removed. |
| NodePool.NewClientWithPriority | src/main/java/com/rackspace/jenkins_nodepool/NodePoolClient.java:77-82 | The three-argument constructor keeps the given connection string, priority and credentials. The self-assignment at line 79 leaves the roots at their initialisers (`requests`, `requests-lock`, `nodes`), so requests go under `/requests/<priority>-`. |
| NodePool.NewClient | src/main/java/com/rackspace/jenkins_nodepool/NodePoolClient.java:64-75 | The two-argument constructor gives priority 100 and the default roots, so requests are created under `/requests/100-`. |
| NodePool.RequestPrefix | src/main/java/com/rackspace/jenkins_nodepool/NodePoolClient.java:126 | The create prefix starts with `/` and ends with `-`. |
| NodePool.RequestNode | src/main/java/com/rackspace/jenkins_nodepool/NodePoolClient.java:124-142 | requestNode creates one sequential entry under `/<requestRoot>/<priority>-`. It returns the request with `nodePoolID` set to idForPath of the created path and `nodePath` set to that path, or idForPath's error. The locks are untouched. |
| NodePool.RequestIdIsSequenceSuffix | src/main/java/com/rackspace/jenkins_nodepool/NodePoolClient.java:126-136 | For every root and priority, the id of a created request is exactly the store's sequence suffix. |
| NodePool.RequestNodeIdentified | src/main/java/com/rackspace/jenkins_nodepool/NodePoolClient.java:124-142 | requestNode never fails after creating its entry. The returned request carries the suffix as its id, the created path as its path, and no nodes. |
| NodePool.RequestIdsDistinct | src/main/java/com/rackspace/jenkins_nodepool/NodePoolClient.java:126-136 | Requests created at different counter values get different ids, whichever clients created them. |
| NodePool.DeleteNode | src/main/java/com/rackspace/jenkins_nodepool/NodePoolClient.java:210-217 | deleteNode never raises. It removes the path only when the path is non-null and the store answers. |
| NodePool.DeleteNodeOnlyRemovesPath | src/main/java/com/rackspace/jenkins_nodepool/NodePoolClient.java:210-217 | deleteNode never adds a path and never removes any other path. An answered delete removes its path, and deleting a missing path changes nothing. |
| NodePool.FailIndex | src/main/java/com/rackspace/jenkins_nodepool/NodePoolClient.java:177-187 | The loop stops at the first node whose acquire or read throws. Every earlier node succeeded. |
| NodePool.LockInOrder | src/main/java/com/rackspace/jenkins_nodepool/NodePoolClient.java:177-186 | The try loop accepts exactly the nodes before the first failure. It reports whether a failure occurred, makes exactly the lock-and-read calls up to the failing node, and ends holding their locks plus the failing node's lock if that lock was granted. |
| NodePool.RollBack | src/main/java/com/rackspace/jenkins_nodepool/NodePoolClient.java:187-200 | The catch loop calls release once per accepted node, in order. Exactly the locks whose release reaches the store are released. |
| NodePool.AcceptNodes | src/main/java/com/rackspace/jenkins_nodepool/NodePoolClient.java:170-208 | acceptNodes returns the prefix of the allocated nodes before the first failure. It makes exactly the specified call trace, leaves exactly the specified locks held, always attempts the delete of the request path, and changes nothing else. |
| NodePool.LockCallsCount | src/main/java/com/rackspace/jenkins_nodepool/NodePoolClient.java:177-186 | The try loop's calls are those of the successful nodes, plus the failing node's acquire, plus its read when its lock was granted. |
| NodePool.AcceptCallsCount | src/main/java/com/rackspace/jenkins_nodepool/NodePoolClient.java:170-208 | acceptNodes makes each call exactly once or never:<br>• acquire once for each node up to and including the failing one, and never for later nodes;<br>• a read only after a granted lock;<br>• release once for each accepted node, and only after a failure;<br>• the request delete exactly once on every path. |
| NodePool.LockCallAt | src/main/java/com/rackspace/jenkins_nodepool/NodePoolClient.java:177-186 | Node `i`'s acquire is call `2i` and its read is the next call, so the nodes are locked in list order. |
| NodePool.ReleaseCallAt | src/main/java/com/rackspace/jenkins_nodepool/NodePoolClient.java:191-200 | After the failed call, the releases follow in acquisition order: node `j` is released at position `j` of the rollback. |
| NodePool.DeleteIsLast | src/main/java/com/rackspace/jenkins_nodepool/NodePoolClient.java:202-205 | The delete of the request is the last call. |
| NodePool.AcceptAllSucceeded | src/main/java/com/rackspace/jenkins_nodepool/NodePoolClient.java:177-207 | The returned list equals the allocated list exactly when every lock and read succeeds. In that case every allocated node's lock is held once more. |
| NodePool.AcceptKeepsHeldLocks | src/main/java/com/rackspace/jenkins_nodepool/NodePoolClient.java:187-200 | The rollback releases only locks the loop acquired, so every lock held before acceptNodes is still held after it. |
| NodePool.AcquireFailureReleasesAll | src/main/java/com/rackspace/jenkins_nodepool/NodePoolClient.java:187-207 | After a refused lock, with every release reaching the store, the locks are exactly as before. The returned list still holds the nodes accepted before the failure. |
| NodePool.GetDataFailureLeaksLock | src/main/java/com/rackspace/jenkins_nodepool/NodePoolClient.java:180-192 | When a read fails after its lock was granted, that lock stays held once more than before, even when every release succeeds. |
| NodePool.ReleaseFailureKeepsLock | src/main/java/com/rackspace/jenkins_nodepool/NodePoolClient.java:191-199 | A release that does not reach the store leaves that node's lock held once more than before. |
| NodePool.SecondOfThreeLocksRefused | src/main/java/com/rackspace/jenkins_nodepool/NodePoolClient.java:170-208 | Three nodes, second lock refused. The calls are acquire, read, acquire, release, delete. No lock is left held and the returned list is the first node. |

## Left out

- Connections and transport: `getConnection` (lines 118-120) and Curator's retry and session handling are not modelled. Store failures are inputs instead: a lock is granted or not, data is readable or not, a release or delete reaches the store or not.
- Session expiry and ephemeral-node cleanup are not modelled. Neither are other sessions competing for the same locks. `acquire()` takes no timeout: while another session holds the lock it blocks until the lock is free. The model has no call that never returns, so `acceptNodes` always terminates in it. A lock that is "not granted" stands only for `acquire()` throwing (connection loss, interruption).
- `getZNode` (lines 151-156) is JSON decoding through Gson, a foreign library. `nodeExists` (lines 158-161) is a thin existence check.
- Logging, the getters, and the `request()` stub that returns null (lines 104-106) are left out.
- The payload written by `requestNode` (`request.toString().getBytes()`) is not modelled. Neither is `creatingParentsIfNeeded`, nor a create that fails in transport (the exception would simply propagate).
- ZooKeeper keeps one sequence counter per parent node and formats it as a signed 32-bit value. The model keeps one unbounded counter for the whole store, so overflow past 2147483647 is not modelled.
- A null priority (which makes `priority.toString()` throw) is not modelled: the priority is an `int`.
- `NodeRequest` and `NodePoolNode` are not part of this model. They appear as a record of the labels, the id, the path and the allocated nodes, and each node as its name and lock path. `node.getData()` is represented only by whether it succeeds.
- An empty result on failure and lock timeouts are not implemented by the code, so they are not modelled. Neither is cleanup of the created request when `idForPath` fails.
