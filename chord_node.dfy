/**
 * The Chord node of lab4/chord_node.py (class ChordNode, plus
 * Chord.lookup_node): finger table, predecessor pointer and key store of one
 * node, and the routing, join and storage operations that follow the
 * pseudocode of the Chord paper (Stoica et al., SIGCOMM 2001).
 *
 * The network is a map from node identifier to node object: a remote call
 * to identifier n is a direct call on net[n] (the socket, pickle and thread
 * plumbing of Chord.call_rpc is not modelled), and a call to the node's own
 * identifier is short-circuited to the node itself, as call_rpc does.
 * Calls whose chain of forwarding has no bound in the source (the routing
 * loop of find_predecessor, the forwarding of put and get) carry a hop
 * budget `fuel`; running out of it is the error HopLimit.
 */
module ChordNodes {
  import opened Wrappers
  import opened RingMath
  import opened ModRanges
  import opened Fingers

  /** Why a call fails. */
  datatype RpcError =
    | UnknownMethod(name: string)     // dispatch_rpc's ValueError
    | TypeError                       // None used as an identifier, or an argument of the wrong kind
    | IndexError                      // a finger index outside 1..m
    | ConnectionFailure(target: Option<int>)  // no node with that identifier is reachable
    | HopLimit                        // the model's bound on forwarding

  /** Arguments of a remote call (Python passes None when absent). */
  datatype Arg<V> = Nil | Id(id: int) | Data(data: V)

  /** Results of a remote call. */
  datatype Reply<V> = NodeId(id: Option<int>) | Value(value: Option<V>) | Done | Updated(changed: bool)

  /** The names dispatch_rpc serves. */
  const RpcNames: set<string> := {"get_value", "put_value", "successor", "find_successor",
                                  "predecessor", "closest_preceding_finger", "update_finger_table"}

  /** Chord.lookup_node: the endpoint's hash reduced onto the ring (the hash is a parameter). */
  function LookupNode<A>(hash: A -> nat, address: A, m: nat): (id: int)
    ensures 0 <= id < Pow2(m)
    ensures Dist(hash(address), id, Pow2(m)) == 0
  {
    DistNormalize(hash(address), hash(address), Pow2(m));
    hash(address) % Pow2(m)
  }

  /** Every node of the network is registered under its own identifier, with m bits and a well-formed table. */
  ghost predicate Network<V>(net: map<int, ChordNode<V>>, m: nat)
    reads net.Values`finger
  {
    forall n :: n in net ==> net[n].node == n && net[n].m == m && net[n].Valid()
  }

  /** The successor pointer of node p. */
  ghost function SuccOf<V>(net: map<int, ChordNode<V>>, p: int): Option<int>
    reads net.Values`finger
    requires p in net && |net[p].finger| > 0
  {
    net[p].finger[0].node
  }

  /** (p, s]: the identifiers that find_predecessor accepts at p with successor s. */
  function SuccessorRange(p: int, s: int, m: nat): ModRange
  {
    NewModRange(p + 1, s + 1, Pow2(m))
  }

  /** Node p's successor pointer names the next node of the network clockwise. */
  ghost predicate SuccessorLinked<V>(net: map<int, ChordNode<V>>, m: nat, p: int)
    reads net.Values`finger
    requires p in net
  {
    |net[p].finger| > 0 && SuccOf(net, p).Some? && IsOwner(net.Keys, p + 1, SuccOf(net, p).value, Pow2(m))
  }

  /** Every node's successor pointer names the next node of the network clockwise. */
  ghost predicate SuccessorsConsistent<V>(net: map<int, ChordNode<V>>, m: nat)
    reads net.Values`finger
  {
    forall p {:trigger SuccessorLinked(net, m, p)} :: p in net ==> SuccessorLinked(net, m, p)
  }

  /** On a consistent ring, the successor s of p owns every identifier of (p, s]. */
  lemma SuccessorOwns<V>(net: map<int, ChordNode<V>>, m: nat, p: int, s: int, id: int)
    requires Network(net, m) && SuccessorsConsistent(net, m)
    requires p in net && SuccOf(net, p) == Some(s) && SuccessorRange(p, s, m).Covers(id)
    ensures IsOwner(net.Keys, id, s, Pow2(m))
  {
    assert SuccessorLinked(net, m, p);
    NewModRangeCovers(p + 1, s + 1, Pow2(m), id);
    IntervalOwner(net.Keys, Pow2(m), p, s, id);
  }

  /** The copy-forward test for table index k (entry k + 1): its start lies in [node, node of entry k). */
  ghost predicate CopiesForward(t: seq<FingerEntry>, node: int, m: nat, k: int)
    requires 1 <= k < |t|
  {
    t[k - 1].node.Some? && NewModRange(node, t[k - 1].node.value, Pow2(m)).Covers(t[k].start)
  }

  /** Every table index 1..n-1 that passes the copy-forward test holds the node of the index before. */
  ghost predicate CopiedForward(t: seq<FingerEntry>, node: int, m: nat, n: int)
    requires n <= |t|
  {
    forall j :: 1 <= j < n ==> CopiesForward(t, node, m, j) ==> t[j].node == t[j - 1].node
  }

  /** Setting index i to the node of index i - 1 when the test passes extends the copied prefix by one. */
  lemma CopiedForwardStep(before: seq<FingerEntry>, node: int, m: nat, i: int, v: Option<int>)
    requires 1 <= i < |before| && CopiedForward(before, node, m, i)
    requires CopiesForward(before, node, m, i) ==> v == before[i - 1].node
    ensures CopiedForward(before[i := before[i].(node := v)], node, m, i + 1)
  {
    var after := before[i := before[i].(node := v)];
    forall j | 1 <= j < i + 1 && CopiesForward(after, node, m, j)
      ensures after[j].node == after[j - 1].node
    {
      assert after[j - 1] == before[j - 1] && after[j].start == before[j].start;
      assert CopiesForward(before, node, m, j);
    }
  }

  /** A second update of the same key overrides the first. */
  lemma UpdateTwice<K, T>(t: map<K, T>, k: K, a: T, b: T)
    ensures t[k := a][k := b] == t[k := b]
  {
  }

  /**
   * Node n's table t as the corrected init_finger_table leaves it: every
   * entry set, and each entry from the second on either copied forward or an
   * answer of find_successor on the successor pointers succ.
   */
  ghost predicate FilledTable(t: seq<FingerEntry>, n: int, m: nat, succ: map<int, Option<int>>)
  {
    && |t| == m
    && (forall j :: 0 <= j < m ==> t[j].node.Some?)
    && CopiedForward(t, n, m, m)
    && LookedUp(t, n, m, m, succ)
  }

  /**
   * The predecessor handshake of a join: node n takes over its successor's
   * predecessor and becomes the successor's predecessor; no other node's
   * predecessor changes.
   */
  ghost predicate PredecessorTaken(before: map<int, Option<int>>, after: map<int, Option<int>>, n: int, succ: Option<int>)
  {
    succ.Some? && succ.value in before && after == before[n := before[succ.value]][succ.value := Some(n)]
  }

  /** Each node's successor pointer in a snapshot of the finger tables. */
  ghost function Successors(t: map<int, seq<FingerEntry>>): map<int, Option<int>>
  {
    map p | p in t :: if |t[p]| > 0 then t[p][0].node else None
  }

  /** Changing a node's table but not its entry 1 leaves every successor pointer as it was. */
  lemma SuccessorsKept(t: map<int, seq<FingerEntry>>, n: int, f: seq<FingerEntry>)
    requires n in t && |t[n]| > 0 && |f| > 0 && f[0] == t[n][0]
    ensures Successors(t[n := f]) == Successors(t)
  {
  }

  /** s is an answer find_successor(id) can give: the successor of some node p whose range (p, s] covers id. */
  ghost predicate SuccessorAnswer(succ: map<int, Option<int>>, m: nat, id: int, s: int)
  {
    exists p :: p in succ && succ[p] == Some(s) && SuccessorRange(p, s, m).Covers(id)
  }

  /** p's successor pointer names the next live node clockwise. */
  ghost predicate OwnsNext(succ: map<int, Option<int>>, m: nat, p: int)
    requires p in succ
  {
    succ[p].Some? && IsOwner(succ.Keys, p + 1, succ[p].value, Pow2(m))
  }

  /** Every successor pointer names the next live node clockwise. */
  ghost predicate SuccessorsOwn(succ: map<int, Option<int>>, m: nat)
  {
    forall p {:trigger OwnsNext(succ, m, p)} :: p in succ ==> OwnsNext(succ, m, p)
  }

  /** With every pointer naming the next live node, an answer of find_successor owns the identifier. */
  lemma AnswerOwns(succ: map<int, Option<int>>, m: nat, id: int, s: int)
    requires SuccessorsOwn(succ, m) && SuccessorAnswer(succ, m, id, s)
    ensures IsOwner(succ.Keys, id, s, Pow2(m))
  {
    var p :| p in succ && succ[p] == Some(s) && SuccessorRange(p, s, m).Covers(id);
    assert OwnsNext(succ, m, p);
    NewModRangeCovers(p + 1, s + 1, Pow2(m), id);
    IntervalOwner(succ.Keys, Pow2(m), p, s, id);
  }

  /** Every table index 1..n-1 that fails the copy-forward test holds an answer of find_successor for its start. */
  ghost predicate LookedUp(t: seq<FingerEntry>, node: int, m: nat, n: int, succ: map<int, Option<int>>)
    requires n <= |t|
  {
    forall j :: 1 <= j < n ==> !CopiesForward(t, node, m, j) ==>
      t[j].node.Some? && SuccessorAnswer(succ, m, t[j].start, t[j].node.value)
  }

  /** Setting index i to an answer of find_successor when the copy test fails extends the looked-up prefix by one. */
  lemma LookedUpStep(before: seq<FingerEntry>, node: int, m: nat, i: int, v: Option<int>, succ: map<int, Option<int>>)
    requires 1 <= i < |before| && LookedUp(before, node, m, i, succ)
    requires !CopiesForward(before, node, m, i) ==> v.Some? && SuccessorAnswer(succ, m, before[i].start, v.value)
    ensures LookedUp(before[i := before[i].(node := v)], node, m, i + 1, succ)
  {
    var after := before[i := before[i].(node := v)];
    forall j | 1 <= j < i + 1 && !CopiesForward(after, node, m, j)
      ensures after[j].node.Some? && SuccessorAnswer(succ, m, after[j].start, after[j].node.value)
    {
      assert after[j - 1] == before[j - 1] && after[j].start == before[j].start;
      assert !CopiesForward(before, node, m, j);
    }
  }

  /** Every looked-up entry, ranged over indices 1..m-1, holds the owner of its start. */
  ghost predicate OwnedWhereLooked(live: set<int>, f: seq<FingerEntry>, node: int, m: nat)
    requires m >= 1 && |f| == m
  {
    forall j :: 1 <= j < m ==> !CopiesForward(f, node, m, j) ==>
      f[j].node.Some? && IsOwner(live, f[j].start, f[j].node.value, Pow2(m))
  }

  /** With every successor pointer naming the next live node, each answer of find_successor in the table is an owner. */
  lemma LookedUpOwn(succ: map<int, Option<int>>, node: int, m: nat, f: seq<FingerEntry>)
    requires m >= 1 && |f| == m && SuccessorsOwn(succ, m) && LookedUp(f, node, m, m, succ)
    ensures OwnedWhereLooked(succ.Keys, f, node, m)
  {
    forall j | 1 <= j < m && !CopiesForward(f, node, m, j)
      ensures f[j].node.Some? && IsOwner(succ.Keys, f[j].start, f[j].node.value, Pow2(m))
    {
      AnswerOwns(succ, m, f[j].start, f[j].node.value);
    }
  }

  /** Copying entry k forward keeps it the owner of entry k + 1's start. */
  lemma CopiedEntryOwns(live: set<int>, node: int, m: nat, f: seq<FingerEntry>, k: nat)
    requires 0 <= node < Pow2(m) && |f| == m && 1 <= k < m
    requires f[k - 1].start == FingerStart(m, node, k) && f[k].start == FingerStart(m, node, k + 1)
    requires f[k - 1].node.Some? && IsOwner(live, f[k - 1].start, f[k - 1].node.value, Pow2(m))
    requires CopiesForward(f, node, m, k) && f[k].node == f[k - 1].node
    ensures IsOwner(live, f[k].start, f[k].node.value, Pow2(m))
  {
    CopyForwardKeepsOwner(live, m, node, k, f[k - 1].node.value);
  }

  /** Ownership runs forward through the table: copied entries inherit it, looked-up entries have it. */
  lemma {:induction false} OwnersForward(live: set<int>, node: int, m: nat, f: seq<FingerEntry>, k: nat)
    requires 0 <= node < Pow2(m) && |f| == m && k < m
    requires forall j :: 0 <= j < m ==> f[j].start == FingerStart(m, node, j + 1)
    requires f[0].node.Some? && IsOwner(live, f[0].start, f[0].node.value, Pow2(m))
    requires CopiedForward(f, node, m, m) && OwnedWhereLooked(live, f, node, m)
    ensures f[k].node.Some? && IsOwner(live, f[k].start, f[k].node.value, Pow2(m))
  {
    if k > 0 {
      OwnersForward(live, node, m, f, k - 1);
      if CopiesForward(f, node, m, k) {
        CopiedEntryOwns(live, node, m, f, k);
      }
    }
  }

  /**
   * The table init_finger_table fills is correct: when every successor
   * pointer names the next live node and entry 1 holds the owner of its
   * start, every entry holds the owner of its start, whether it was copied
   * forward or looked up.
   */
  lemma FilledFingersOwn(succ: map<int, Option<int>>, node: int, m: nat, f: seq<FingerEntry>)
    requires 0 <= node < Pow2(m) && |f| == m >= 1
    requires forall j :: 0 <= j < m ==> f[j].start == FingerStart(m, node, j + 1)
    requires SuccessorsOwn(succ, m)
    requires f[0].node.Some? && IsOwner(succ.Keys, f[0].start, f[0].node.value, Pow2(m))
    requires CopiedForward(f, node, m, m) && LookedUp(f, node, m, m, succ)
    ensures forall k :: 0 <= k < m ==> f[k].node.Some? && IsOwner(succ.Keys, f[k].start, f[k].node.value, Pow2(m))
  {
    LookedUpOwn(succ, node, m, f);
    forall k | 0 <= k < m
      ensures f[k].node.Some? && IsOwner(succ.Keys, f[k].start, f[k].node.value, Pow2(m))
    {
      OwnersForward(succ.Keys, node, m, f, k);
    }
  }

  /** Snapshots of the network's state, node by node. */
  ghost function Tables<V>(net: map<int, ChordNode<V>>): map<int, seq<FingerEntry>>
    reads net.Values`finger
  {
    map n | n in net :: net[n].finger
  }

  /** An answer read off the live network is an answer on its snapshot. */
  lemma AnswerInNet<V>(net: map<int, ChordNode<V>>, m: nat, id: int, s: int)
    requires Network(net, m)
    requires exists p :: p in net && SuccOf(net, p) == Some(s) && SuccessorRange(p, s, m).Covers(id)
    ensures SuccessorAnswer(Successors(Tables(net)), m, id, s)
  {
    var p :| p in net && SuccOf(net, p) == Some(s) && SuccessorRange(p, s, m).Covers(id);
    assert Successors(Tables(net))[p] == Some(s);
  }

  /** Consistent successor pointers, read off the snapshot. */
  lemma ConsistentSuccessors<V>(net: map<int, ChordNode<V>>, m: nat)
    requires Network(net, m) && SuccessorsConsistent(net, m)
    ensures Successors(Tables(net)).Keys == net.Keys
    ensures SuccessorsOwn(Successors(Tables(net)), m)
  {
    var succ := Successors(Tables(net));
    assert succ.Keys == net.Keys;
    forall p | p in succ
      ensures OwnsNext(succ, m, p)
    {
      assert SuccessorLinked(net, m, p);
      assert succ[p] == SuccOf(net, p);
    }
  }

  ghost function Preds<V>(net: map<int, ChordNode<V>>): map<int, Option<int>>
    reads net.Values`predecessor
  {
    map n | n in net :: net[n].predecessor
  }

  ghost function Stores<V>(net: map<int, ChordNode<V>>): map<int, map<int, V>>
    reads net.Values`keys
  {
    map n | n in net :: net[n].keys
  }

  /** Some node of the network owns id and holds v for it: what get_value returns. */
  ghost predicate ReadFromOwner<V>(net: map<int, ChordNode<V>>, id: int, v: Option<V>)
    reads net.Values`predecessor, net.Values`keys
  {
    exists o :: o in net && net[o].Owns(id) && v == Lookup(net[o].keys, id)
  }

  /** From before to after, each node's table is unchanged or has entry i pointed at s. */
  ghost predicate OnlyEntrySet(before: map<int, seq<FingerEntry>>, after: map<int, seq<FingerEntry>>, i: int, s: int)
  {
    && before.Keys == after.Keys
    && forall n :: n in before ==>
         after[n] == before[n]
         || (1 <= i <= |before[n]| && after[n] == before[n][i - 1 := before[n][i - 1].(node := Some(s))])
  }

  /** From before to after, tables keep their shape and each entry is unchanged or points at s. */
  ghost predicate OnlyPointedAt(before: map<int, seq<FingerEntry>>, after: map<int, seq<FingerEntry>>, s: int)
  {
    && before.Keys == after.Keys
    && forall n :: n in before ==>
         SameShape(before[n], after[n])
         && forall j :: 0 <= j < |before[n]| ==> after[n][j] == before[n][j] || after[n][j].node == Some(s)
  }

  lemma OnlyEntrySetPointsAt(before: map<int, seq<FingerEntry>>, after: map<int, seq<FingerEntry>>, i: int, s: int)
    requires OnlyEntrySet(before, after, i, s)
    ensures OnlyPointedAt(before, after, s)
  {
  }

  lemma OnlyPointedAtTrans(a: map<int, seq<FingerEntry>>, b: map<int, seq<FingerEntry>>, c: map<int, seq<FingerEntry>>, s: int)
    requires OnlyPointedAt(a, b, s) && OnlyPointedAt(b, c, s)
    ensures OnlyPointedAt(a, c, s)
  {
  }

  lemma OnlyEntrySetTrans(a: map<int, seq<FingerEntry>>, b: map<int, seq<FingerEntry>>, c: map<int, seq<FingerEntry>>, i: int, s: int)
    requires OnlyEntrySet(a, b, i, s) && OnlyEntrySet(b, c, i, s)
    ensures OnlyEntrySet(a, c, i, s)
  {
  }

  /** The nodes whose entry i does not yet point at s: the cascade's measure. */
  ghost function PendingIn(t: map<int, seq<FingerEntry>>, s: int, i: int): set<int>
  {
    set n | n in t && 0 <= i - 1 < |t[n]| && t[n][i - 1].node != Some(s)
  }

  ghost function Pending<V>(net: map<int, ChordNode<V>>, s: int, i: int): set<int>
    reads net.Values`finger
  {
    PendingIn(Tables(net), s, i)
  }

  /** Pointing one pending node's entry i at s leaves fewer pending nodes. */
  lemma PendingShrinks(t: map<int, seq<FingerEntry>>, n0: int, s: int, i: int)
    requires n0 in t && 0 <= i - 1 < |t[n0]| && t[n0][i - 1].node != Some(s)
    ensures |PendingIn(t[n0 := t[n0][i - 1 := t[n0][i - 1].(node := Some(s))]], s, i)| < |PendingIn(t, s, i)|
  {
    var t' := t[n0 := t[n0][i - 1 := t[n0][i - 1].(node := Some(s))]];
    assert PendingIn(t', s, i) == PendingIn(t, s, i) - {n0};
  }

  /** Two tables with the same entries, up to the nodes they point at. */
  ghost predicate SameShape(a: seq<FingerEntry>, b: seq<FingerEntry>)
  {
    |a| == |b| && forall i :: 0 <= i < |a| ==> b[i] == a[i].(node := b[i].node)
  }

  /** update_others' i-th target for node n: one more than n - 2^(i-1), on the ring. */
  function UpdateTarget(m: nat, n: int, i: nat): int
    requires i >= 1
  {
    (1 + n - Pow2(i - 1) + Pow2(m)) % Pow2(m)
  }

  /** p is an answer find_predecessor(id) can give: a node whose range (p, successor] covers id. */
  ghost predicate PredecessorAnswer(succ: map<int, Option<int>>, m: nat, id: int, p: int)
  {
    p in succ && succ[p].Some? && SuccessorRange(p, succ[p].value, m).Covers(id)
  }

  /** update_finger_table's test on a table: entry i is set, not its own start, and s lies in [start, node). */
  ghost predicate Accepts(t: seq<FingerEntry>, i: int, s: int, m: nat)
  {
    && 1 <= i <= |t|
    && t[i - 1].node.Some?
    && t[i - 1].start != t[i - 1].node.value
    && NewModRange(t[i - 1].start, t[i - 1].node.value, Pow2(m)).Covers(s)
  }

  /**
   * Round k of update_others (k = j + 1) reached node ps[j], and where that
   * node's entry k accepted s before the rounds, it now points at s.
   */
  ghost predicate Delivered(before: map<int, seq<FingerEntry>>, after: map<int, seq<FingerEntry>>, ps: seq<int>, s: int, m: nat)
  {
    forall j :: 0 <= j < |ps| ==>
      ps[j] in before
      && (Accepts(before[ps[j]], j + 1, s, m) ==> ps[j] in after && j < |after[ps[j]]| && after[ps[j]][j].node == Some(s))
  }

  /**
   * The rounds of update_others for node s: round k asked ps[k - 1], which
   * find_predecessor gave for UpdateTarget(m, s, k), and delivered
   * update_finger_table(s, k) there.  Round 1 read the successors as they
   * were before; later rounds read them as they are after, since only
   * round 1 writes entry 1.
   */
  ghost predicate UpdatesDelivered(before: map<int, seq<FingerEntry>>, after: map<int, seq<FingerEntry>>, ps: seq<int>, s: int, m: nat)
  {
    && Delivered(before, after, ps, s, m)
    && (|ps| >= 1 ==> PredecessorAnswer(Successors(before), m, UpdateTarget(m, s, 1), ps[0]))
    && (forall j :: 1 <= j < |ps| ==> PredecessorAnswer(Successors(after), m, UpdateTarget(m, s, j + 1), ps[j]))
  }

  /** Entries from index lo on are as they were, in every table. */
  ghost predicate EntriesKept(before: map<int, seq<FingerEntry>>, after: map<int, seq<FingerEntry>>, lo: int)
  {
    && before.Keys == after.Keys
    && forall n :: n in before ==>
         |after[n]| == |before[n]| && forall j :: 0 <= j < |before[n]| && lo <= j ==> after[n][j] == before[n][j]
  }

  /** Pointing only entries i at s leaves every successor pointer alone when i > 1. */
  lemma EntrySetKeepsSuccessors(t: map<int, seq<FingerEntry>>, after: map<int, seq<FingerEntry>>, i: int, s: int)
    requires OnlyEntrySet(t, after, i, s) && i >= 2
    ensures Successors(after) == Successors(t)
  {
    forall n | n in t
      ensures (if |after[n]| > 0 then after[n][0].node else None) == (if |t[n]| > 0 then t[n][0].node else None)
    {
    }
  }

  /** One more round of update_others, which writes only entries i, extends the rounds delivered so far. */
  lemma {:induction false} DeliveredStep(before: map<int, seq<FingerEntry>>, t: map<int, seq<FingerEntry>>, after: map<int, seq<FingerEntry>>,
                                          ps: seq<int>, p: int, s: int, m: nat, i: int)
    requires i == |ps| + 1
    requires Delivered(before, t, ps, s, m) && EntriesKept(before, t, i - 1)
    requires OnlyEntrySet(t, after, i, s)
    requires p in t && (Accepts(t[p], i, s, m) ==> i <= |after[p]| && after[p][i - 1].node == Some(s))
    ensures Delivered(before, after, ps + [p], s, m) && EntriesKept(before, after, i)
  {
    var ps' := ps + [p];
    forall j | 0 <= j < |ps'|
      ensures ps'[j] in before
      ensures Accepts(before[ps'[j]], j + 1, s, m) ==> ps'[j] in after && j < |after[ps'[j]]| && after[ps'[j]][j].node == Some(s)
    {
      if j < |ps| {
        assert ps'[j] == ps[j];
      } else {
        assert ps'[j] == p;
        if Accepts(before[p], i, s, m) {
          assert before[p][i - 1] == t[p][i - 1];
        }
      }
    }
  }

  /** A round that completes, at a node find_predecessor gave for its target, extends the rounds delivered. */
  lemma RoundDelivered(before: map<int, seq<FingerEntry>>, t: map<int, seq<FingerEntry>>, after: map<int, seq<FingerEntry>>,
                       ps: seq<int>, p: int, s: int, m: nat, i: int)
    requires i == |ps| + 1 && (i == 1 ==> t == before)
    requires UpdatesDelivered(before, t, ps, s, m) && EntriesKept(before, t, i - 1)
    requires OnlyEntrySet(t, after, i, s)
    requires PredecessorAnswer(Successors(t), m, UpdateTarget(m, s, i), p)
    requires p in t && (Accepts(t[p], i, s, m) ==> i <= |after[p]| && after[p][i - 1].node == Some(s))
    ensures UpdatesDelivered(before, after, ps + [p], s, m) && EntriesKept(before, after, i)
  {
    DeliveredStep(before, t, after, ps, p, s, m, i);
    var ps' := ps + [p];
    if i >= 2 {
      EntrySetKeepsSuccessors(t, after, i, s);
      assert ps'[0] == ps[0];
      forall j | 1 <= j < |ps'|
        ensures PredecessorAnswer(Successors(after), m, UpdateTarget(m, s, j + 1), ps'[j])
      {
        if j < |ps| {
          assert ps'[j] == ps[j];
        }
      }
    }
  }

  /** A round that fails part way leaves the rounds before it delivered. */
  lemma RoundFailed(before: map<int, seq<FingerEntry>>, t: map<int, seq<FingerEntry>>, after: map<int, seq<FingerEntry>>,
                    ps: seq<int>, s: int, m: nat, i: int)
    requires i == |ps| + 1
    requires UpdatesDelivered(before, t, ps, s, m)
    requires OnlyEntrySet(t, after, i, s)
    ensures UpdatesDelivered(before, after, ps, s, m)
  {
    if i >= 2 {
      EntrySetKeepsSuccessors(t, after, i, s);
    }
  }

  /**
   * The buddy branch of the corrected join, from tables `before` and
   * predecessors `preds` to `after` and `preds'`: an intermediate state
   * `mid` where only n's table has changed, to a filled table whose entry 1
   * answered find_successor; the predecessors swapped with that entry; then
   * update_others' m rounds, which only point entries at n.
   */
  ghost predicate JoinedThroughBuddy(before: map<int, seq<FingerEntry>>, preds: map<int, Option<int>>,
                                     after: map<int, seq<FingerEntry>>, preds': map<int, Option<int>>,
                                     mid: map<int, seq<FingerEntry>>, ps: seq<int>, n: int, m: nat)
  {
    && m >= 1 && n in mid && mid == before[n := mid[n]]
    && FilledTable(mid[n], n, m, Successors(mid))
    && SuccessorAnswer(Successors(before), m, mid[n][0].start, mid[n][0].node.value)
    && PredecessorTaken(preds, preds', n, mid[n][0].node)
    && OnlyPointedAt(mid, after, n)
    && |ps| == m && UpdatesDelivered(mid, after, ps, n, m)
  }

  /**
   * Entry i of the target starts just past n, so find_predecessor of the
   * target stops at the last node whose entry i starts at or before n.
   */
  lemma UpdateTargetStart(m: nat, n: int, i: nat)
    requires 0 <= n < Pow2(m) && 1 <= i <= m
    ensures 0 <= UpdateTarget(m, n, i) < Pow2(m)
    ensures FingerStart(m, UpdateTarget(m, n, i), i) == (n + 1) % Pow2(m)
  {
    var N: int, P: int := Pow2(m), Pow2(i - 1);
    Pow2Monotone(i - 1, m);
    var x := 1 + n - P + N;
    var r, q := if n + 1 < N then n + 1 else 0, if n + 1 < N then 0 else 1;
    ModUnique(n + 1, N, q, r);
    if x < N {
      ModUnique(x, N, 0, x);
      ModUnique(x + P, N, q + 1, r);
    } else {
      ModUnique(x, N, 1, x - N);
      ModUnique(x - N + P, N, q, r);
    }
  }

  /** `d[k] if k in d else None`. */
  function Lookup<K, W>(d: map<K, W>, k: K): (r: Option<W>)
    ensures r.Some? <==> k in d
    ensures r.Some? ==> r.value == d[k]
  {
    if k in d then Some(d[k]) else None
  }

  /** Node n's predecessor pointer names the previous node of the network. */
  ghost predicate PredecessorLinked<V>(net: map<int, ChordNode<V>>, m: nat, n: int)
    reads net.Values`predecessor
    requires n in net
  {
    net[n].predecessor.Some? && net[n].predecessor.value in net
    && IsOwner(net.Keys, net[n].predecessor.value + 1, n, Pow2(m))
  }

  /** Every node's predecessor pointer names the previous node of the network. */
  ghost predicate PredecessorsConsistent<V>(net: map<int, ChordNode<V>>, m: nat)
    reads net.Values`predecessor
  {
    forall n {:trigger PredecessorLinked(net, m, n)} :: n in net ==> PredecessorLinked(net, m, n)
  }

  /** When p's successor on the ring is o, o owns exactly the identifiers of (p, o]. */
  lemma OwnershipInterval(live: set<int>, N: int, p: int, o: int, id: int)
    requires N > 0 && p in live && IsOwner(live, p + 1, o, N) && 0 <= id < N
    ensures NewModRange(p + 1, o + 1, N).Covers(id) <==> IsOwner(live, id, o, N)
  {
    NewModRangeCovers(p + 1, o + 1, N, id);
    if NewModRange(p + 1, o + 1, N).Covers(id) {
      IntervalOwner(live, N, p, o, id);
    }
    if IsOwner(live, id, o, N) {
      OwnerInInterval(live, N, p, o, id);
    }
  }

  /**
   * With consistent predecessors, a node's ownership test (id in
   * (predecessor, node]) holds exactly when the node is id's owner: the
   * first node of the network at or after id.
   */
  lemma OwnsIffOwner<V>(net: map<int, ChordNode<V>>, m: nat, o: int, id: int)
    requires Network(net, m) && PredecessorsConsistent(net, m)
    requires o in net && 0 <= id < Pow2(m)
    ensures net[o].Owns(id) <==> IsOwner(net.Keys, id, o, Pow2(m))
  {
    assert PredecessorLinked(net, m, o);
    assert net[o].node == o;
    OwnershipInterval(net.Keys, Pow2(m), net[o].predecessor.value, o, id);
  }

  /** With consistent predecessors, at most one node owns each identifier. */
  lemma OwnersAgree<V>(net: map<int, ChordNode<V>>, m: nat, o1: int, o2: int, id: int)
    requires Network(net, m) && PredecessorsConsistent(net, m)
    requires o1 in net && o2 in net && net[o1].Owns(id) && net[o2].Owns(id)
    ensures o1 == o2
  {
    OwnsIffOwner(net, m, o1, id);
    OwnsIffOwner(net, m, o2, id);
    OwnerUnique(net.Keys, id, o1, o2, Pow2(m));
  }

  /**
   * The copy-forward rule of init_finger_table is sound: if s owns the start
   * of entry k of node n, and the start of entry k+1 lies in [n, s), then s
   * owns the start of entry k+1 as well.
   */
  lemma CopyForwardKeepsOwner(live: set<int>, m: nat, n: int, k: nat, s: int)
    requires 0 <= n < Pow2(m) && 1 <= k < m
    requires IsOwner(live, FingerStart(m, n, k), s, Pow2(m))
    requires NewModRange(n, s, Pow2(m)).Covers(FingerStart(m, n, k + 1))
    ensures IsOwner(live, FingerStart(m, n, k + 1), s, Pow2(m))
  {
    var N := Pow2(m);
    FingerStartOffset(m, n, k);
    FingerStartOffset(m, n, k + 1);
    NewModRangeCovers(n, s, N, FingerStart(m, n, k + 1));
    CopyForwardSound(live, N, n, FingerStart(m, n, k), FingerStart(m, n, k + 1), s);
  }

  class ChordNode<V> {
    /** Number of identifier bits; the ring has Pow2(m) identifiers. */
    const m: nat
    /** This node's identifier. */
    const node: int
    /** Identifier of the known node to join through, if any. */
    const buddy: Option<int>
    /** finger[i] is finger-table entry i + 1 (the source's finger[i + 1]), for i in 0..m-1. */
    var finger: seq<FingerEntry>
    var predecessor: Option<int>
    var keys: map<int, V>
    var joined: bool

    /** The table has m entries whose starts and intervals are those of FingerEntry(node, k). */
    ghost predicate Valid()
      reads this`finger
    {
      && m >= 1
      && 0 <= node < Pow2(m)
      && |finger| == m
      && forall i :: 0 <= i < m ==> finger[i] == NewFingerEntry(m, node, i + 1, finger[i].node).value
    }

    constructor (m: nat, node: int, buddy: Option<int>)
      requires m >= 1 && 0 <= node < Pow2(m)
      ensures Valid() && this.m == m && this.node == node && this.buddy == buddy
      ensures forall i :: 0 <= i < m ==> finger[i].node == None
      ensures predecessor == None && keys == map[] && !joined
    {
      this.m, this.node, this.buddy := m, node, buddy;
      finger := seq(m, k requires 0 <= k < m => NewFingerEntry(m, node, k + 1, None).value);
      predecessor := None;
      keys := map[];
      joined := false;
    }

    /** The `successor` property: the node of finger-table entry 1. */
    function Successor(): Option<int>
      reads this`finger
      requires Valid()
    {
      finger[0].node
    }

    /** Replace this node's table by one of the same shape; the network stays well formed. */
    method SetTable(finger': seq<FingerEntry>, ghost net: map<int, ChordNode<V>>)
      requires InNet(net) && SameShape(finger, finger')
      modifies this`finger
      ensures InNet(net) && finger == finger'
      ensures Tables(net) == old(Tables(net))[node := finger']
    {
      ghost var t0 := Tables(net);
      finger := finger';
      forall n | n in net
        ensures Tables(net)[n] == t0[node := finger'][n]
      {
        if n != node {
          assert net[n] != this;
        }
      }
      assert Tables(net).Keys == t0.Keys;
    }

    /** Assign the predecessor pointer. */
    method SetPredecessor(p: Option<int>, ghost net: map<int, ChordNode<V>>)
      requires InNet(net)
      modifies this`predecessor
      ensures InNet(net) && predecessor == p
      ensures Preds(net) == old(Preds(net))[node := p]
    {
      ghost var p0 := Preds(net);
      predecessor := p;
      forall n | n in net
        ensures Preds(net)[n] == p0[node := p][n]
      {
        if n != node {
          assert net[n] != this;
        }
      }
      assert Preds(net).Keys == p0.Keys;
    }

    /** Assign the key store. */
    method SetKeys(keys': map<int, V>, ghost net: map<int, ChordNode<V>>)
      requires InNet(net)
      modifies this`keys
      ensures InNet(net) && keys == keys'
      ensures Stores(net) == old(Stores(net))[node := keys']
    {
      ghost var k0 := Stores(net);
      keys := keys';
      forall n | n in net
        ensures Stores(net)[n] == k0[node := keys'][n]
      {
        if n != node {
          assert net[n] != this;
        }
      }
      assert Stores(net).Keys == k0.Keys;
    }

    /** `finger[k].node = v`: only the node of entry k changes. */
    method SetFingerNode(k: int, v: Option<int>, ghost net: map<int, ChordNode<V>>)
      requires InNet(net) && 1 <= k <= m
      modifies this`finger
      ensures InNet(net)
      ensures finger == old(finger)[k - 1 := old(finger)[k - 1].(node := v)]
      ensures Tables(net) == old(Tables(net))[node := finger]
    {
      SetTable(finger[k - 1 := finger[k - 1].(node := v)], net);
    }

    /** The `successor` setter. */
    method SetSuccessor(id: int, ghost net: map<int, ChordNode<V>>)
      requires InNet(net)
      modifies this`finger
      ensures InNet(net) && Successor() == Some(id)
      ensures finger == old(finger)[0 := old(finger)[0].(node := Some(id))]
      ensures Tables(net) == old(Tables(net))[node := finger]
    {
      SetFingerNode(1, Some(id), net);
    }

    // -------------------------------------------------------------------
    // Local routing decision
    // -------------------------------------------------------------------

    /** The open interval (node, id) that closest_preceding_finger searches. */
    function PrecedingRange(id: int): ModRange
      reads this`finger
      requires Valid()
    {
      NewModRange(node + 1, id, Pow2(m))
    }

    /** Entry i + 1 points at a node in ModRange(node + 1, id): (node, id) on the ring, or the whole ring when id == node + 1. */
    ghost predicate Precedes(i: int, id: int)
      reads this`finger
      requires Valid() && 0 <= i < m
    {
      finger[i].node.Some? && PrecedingRange(id).Covers(finger[i].node.value)
    }

    /**
     * closest_preceding_finger: scanning entries m down to 1, the node of the
     * first entry that lies in ModRange(node + 1, id); this node if there is none.
     */
    method ClosestPrecedingFinger(id: int) returns (r: int)
      requires Valid()
      ensures r == node || PrecedingRange(id).Covers(r)
      ensures r == node || exists i :: 0 <= i < m && finger[i].node == Some(r)
      ensures (forall i :: 0 <= i < m ==> !Precedes(i, id)) ==> r == node
      ensures (exists i :: 0 <= i < m && Precedes(i, id)) ==>
        exists i :: 0 <= i < m && Precedes(i, id) && finger[i].node == Some(r)
                    && forall j :: i < j < m ==> !Precedes(j, id)
    {
      var i := m;
      while i > 0
        invariant 0 <= i <= m
        invariant forall j :: i <= j < m ==> !Precedes(j, id)
      {
        var f := finger[i - 1].node;
        if f.Some? {
          var inside := Contains(PrecedingRange(id), f.value);
          if inside {
            assert Precedes(i - 1, id);
            return f.value;
          }
        }
        i := i - 1;
      }
      return node;
    }

    // -------------------------------------------------------------------
    // The network as seen from this node
    // -------------------------------------------------------------------

    /** This node is registered in a well-formed network. */
    ghost predicate InNet(net: map<int, ChordNode<V>>)
      reads this`finger, net.Values`finger
    {
      node in net && net[node] == this && Network(net, m)
    }

    /** The network is this node alone, every finger pointing back at it. */
    ghost predicate Alone(net: map<int, ChordNode<V>>)
      reads this`finger, net.Values`finger
    {
      InNet(net) && net.Keys == {node} && forall i :: 0 <= i < m ==> finger[i].node == Some(node)
    }

    /** Alone, this node is its own successor and (node, node] is the whole ring. */
    lemma AloneAccepts(net: map<int, ChordNode<V>>, id: int)
      requires Alone(net) && 0 <= id < Pow2(m)
      ensures SuccOf(net, node) == Some(node) && SuccessorRange(node, node, m).Covers(id)
    {
      assert finger[0].node == Some(node);
      NewModRangeCovers(node + 1, node + 1, Pow2(m), id);
    }

    /** Alone, every finger leads back here. */
    lemma AloneFingers(net: map<int, ChordNode<V>>, r: int)
      requires Alone(net)
      requires r == node || exists i :: 0 <= i < m && net[node].finger[i].node == Some(r)
      ensures r == node
    {
    }

    /** `call_rpc(n, 'successor')`: local when n is this node, else a call into the network. */
    function RpcSuccessor(net: map<int, ChordNode<V>>, n: int): (r: Result<Option<int>, RpcError>)
      reads this`finger, net.Values`finger
      requires InNet(net)
      ensures r.Ok? <==> n in net
      ensures r.Ok? ==> r.value == SuccOf(net, n)
      ensures r.Err? ==> r.error == ConnectionFailure(Some(n))
    {
      if n == node then Ok(Successor())
      else if n in net then Ok(net[n].Successor())
      else Err(ConnectionFailure(Some(n)))
    }

    /** `call_rpc(n, 'closest_preceding_finger', id)` to a reachable node n. */
    method RpcClosestPrecedingFinger(net: map<int, ChordNode<V>>, n: int, id: int) returns (r: int)
      requires InNet(net) && n in net
      ensures r == n || exists i :: 0 <= i < m && net[n].finger[i].node == Some(r)
    {
      if n == node {
        r := ClosestPrecedingFinger(id);
      } else {
        r := net[n].ClosestPrecedingFinger(id);
      }
    }

    /**
     * find_predecessor: starting here, hop to the closest preceding finger
     * until id lies in (n', successor(n')]; at most fuel hops.
     */
    method FindPredecessor(id: int, net: map<int, ChordNode<V>>, fuel: nat) returns (r: Result<int, RpcError>)
      requires InNet(net)
      ensures r.Ok? ==> r.value in net && SuccOf(net, r.value).Some?
                        && SuccessorRange(r.value, SuccOf(net, r.value).value, m).Covers(id)
      ensures r.Err? ==> !r.error.UnknownMethod?
      ensures Alone(net) && 0 <= id < Pow2(m) ==> r == Ok(node)
    {
      var n' := node;
      var hops := fuel;
      while true
        invariant Alone(net) && 0 <= id < Pow2(m) ==> n' == node
        decreases hops
      {
        var succ := RpcSuccessor(net, n');
        if succ.Err? {
          return Err(succ.error);
        }
        if succ.value.None? {
          return Err(TypeError);
        }
        if Alone(net) && 0 <= id < Pow2(m) {
          AloneAccepts(net, id);
        }
        var done := Contains(SuccessorRange(n', succ.value.value, m), id);
        if done {
          return Ok(n');
        }
        if hops == 0 {
          return Err(HopLimit);
        }
        n' := RpcClosestPrecedingFinger(net, n', id);
        if Alone(net) && 0 <= id < Pow2(m) {
          AloneFingers(net, n');
        }
        hops := hops - 1;
      }
    }

    /** find_successor: the successor of the node find_predecessor stops at. */
    method FindSuccessor(id: int, net: map<int, ChordNode<V>>, fuel: nat) returns (r: Result<int, RpcError>)
      requires InNet(net)
      ensures r.Ok? ==> exists p :: p in net && SuccOf(net, p) == Some(r.value)
                                    && SuccessorRange(p, r.value, m).Covers(id)
      ensures r.Ok? && SuccessorsConsistent(net, m) ==> IsOwner(net.Keys, id, r.value, Pow2(m))
      ensures r.Err? ==> !r.error.UnknownMethod?
      ensures Alone(net) && 0 <= id < Pow2(m) ==> r == Ok(node)
    {
      var p := FindPredecessor(id, net, fuel);
      if p.Err? {
        return Err(p.error);
      }
      // find_predecessor has just reached p and read a successor there
      var q := p.value;
      var s := RpcSuccessor(net, q);
      var t := s.value.value;
      assert q in net && SuccOf(net, q) == Some(t) && SuccessorRange(q, t, m).Covers(id);
      if SuccessorsConsistent(net, m) {
        SuccessorOwns(net, m, q, t, id);
      }
      r := Ok(t);
    }

    // -------------------------------------------------------------------
    // Finger-table maintenance
    // -------------------------------------------------------------------

    /** update_finger_table's test: entry i is set, does not point at its own start, and s lies in [start, node). */
    ghost predicate Applies(s: int, i: int)
      reads this`finger
      requires Valid()
    {
      && 1 <= i <= m
      && finger[i - 1].node.Some?
      && finger[i - 1].start != finger[i - 1].node.value
      && NewModRange(finger[i - 1].start, finger[i - 1].node.value, Pow2(m)).Covers(s)
    }

    /** An entry the test accepts does not point at s yet. */
    lemma AppliesMoves(s: int, i: int)
      requires Valid() && Applies(s, i)
      ensures finger[i - 1].node != Some(s)
    {
      var e := finger[i - 1];
      StopExcluded(e.start, e.node.value, Pow2(m));
      if e.node.value == s {
        DistZero(e.start, s, Pow2(m));
      }
    }

    /**
     * The local half of update_finger_table: IndexError outside 1..m,
     * TypeError on an empty entry, no change when the test fails, and
     * otherwise entry i becomes s.
     */
    method ApplyUpdate(s: int, i: int, net: map<int, ChordNode<V>>) returns (r: Result<bool, RpcError>)
      requires InNet(net)
      modifies this`finger
      ensures InNet(net)
      ensures !(1 <= i <= m) ==> r == Err(IndexError)
      ensures 1 <= i <= m && old(finger[i - 1].node).None? ==> r == Err(TypeError)
      ensures 1 <= i <= m && old(finger[i - 1].node).Some? && !old(Applies(s, i)) ==> r == Ok(false)
      ensures r == Ok(true) <==> old(Applies(s, i))
      ensures r != Ok(true) ==> Tables(net) == old(Tables(net))
      ensures r == Ok(true) ==>
        old(finger[i - 1].node) != Some(s) && finger == old(finger)[i - 1 := old(finger)[i - 1].(node := Some(s))]
        && Tables(net) == old(Tables(net))[node := finger]
    {
      if !(1 <= i <= m) {
        return Err(IndexError);
      }
      var e := finger[i - 1];
      if e.node.None? {
        return Err(TypeError);
      }
      var test := e.start != e.node.value;
      if test {
        test := Contains(NewModRange(e.start, e.node.value, Pow2(m)), s);
      }
      if !test {
        return Ok(false);
      }
      AppliesMoves(s, i);
      SetFingerNode(i, Some(s), net);
      return Ok(true);
    }

    /**
     * update_finger_table(s, i): when the test holds, point entry i at s and
     * forward the same call to the predecessor; otherwise do nothing.  The
     * cascade ends because every step points one more node's entry i at s.
     */
    method UpdateFingerTable(s: int, i: int, net: map<int, ChordNode<V>>) returns (r: Result<bool, RpcError>)
      requires InNet(net)
      modifies net.Values`finger
      decreases |Pending(net, s, i)|
      ensures InNet(net)
      ensures OnlyEntrySet(old(Tables(net)), Tables(net), i, s)
      ensures !(1 <= i <= m) ==> r == Err(IndexError) && Tables(net) == old(Tables(net))
      ensures 1 <= i <= m && old(finger[i - 1].node).None? ==> r == Err(TypeError) && Tables(net) == old(Tables(net))
      ensures 1 <= i <= m && old(finger[i - 1].node).Some? && !old(Applies(s, i)) ==>
        r == Ok(false) && Tables(net) == old(Tables(net))
      ensures old(Applies(s, i)) ==> finger[i - 1].node == Some(s) && r != Ok(false)
      ensures (old(Applies(s, i)) && predecessor.Some? && predecessor.value in net && predecessor.value != node
               && old(net[predecessor.value].Applies(s, i))) ==>
        net[predecessor.value].finger[i - 1].node == Some(s)
      ensures old(Applies(s, i)) && predecessor.None? ==> r == Err(TypeError)
      ensures old(Applies(s, i)) && predecessor.Some? && predecessor.value !in net ==>
        r == Err(ConnectionFailure(predecessor))
      ensures r.Err? ==> !r.error.UnknownMethod?
    {
      ghost var tables := Tables(net);
      var a := ApplyUpdate(s, i, net);
      if a != Ok(true) {
        return a;
      }
      PendingShrinks(tables, node, s, i);
      var p := predecessor;
      if p.None? {
        // call_rpc(None, ...) finds no address and sock.connect(None) raises
        return Err(TypeError);
      }
      if p.value !in net {
        return Err(ConnectionFailure(p));
      }
      // call_rpc(p, 'update_finger_table', s, i): this node itself when p is its own identifier
      ghost var tables' := Tables(net);
      assert net[p.value].node == p.value && net[p.value].m == m;
      var fwd := net[p.value].UpdateFingerTable(s, i, net);
      OnlyEntrySetTrans(tables, tables', Tables(net), i, s);
      assert Tables(net)[node] == finger;
      if fwd.Err? {
        return Err(fwd.error);
      }
      return Ok(true);
    }

    /**
     * update_others: for i in 1..m, ask the predecessor of the i-th target to
     * point its entry i at this node (update_finger_table).
     */
    method UpdateOthers(net: map<int, ChordNode<V>>, fuel: nat) returns (r: Result<(), RpcError>, ghost ps: seq<int>)
      requires InNet(net)
      modifies net.Values`finger
      ensures InNet(net)
      ensures OnlyPointedAt(old(Tables(net)), Tables(net), node)
      ensures |ps| <= m && (r.Ok? ==> |ps| == m)
      ensures UpdatesDelivered(old(Tables(net)), Tables(net), ps, node, m)
      ensures r.Err? ==> !r.error.UnknownMethod?
    {
      ps := [];
      for i := 1 to m + 1
        invariant InNet(net) && |ps| == i - 1
        invariant i == 1 ==> Tables(net) == old(Tables(net))
        invariant OnlyPointedAt(old(Tables(net)), Tables(net), node)
        invariant EntriesKept(old(Tables(net)), Tables(net), i - 1)
        invariant UpdatesDelivered(old(Tables(net)), Tables(net), ps, node, m)
      {
        ghost var t := Tables(net);
        var u;
        ghost var p;
        u, p := UpdateRound(i, net, fuel);
        OnlyEntrySetPointsAt(t, Tables(net), i, node);
        OnlyPointedAtTrans(old(Tables(net)), t, Tables(net), node);
        if u.Err? {
          RoundFailed(old(Tables(net)), t, Tables(net), ps, node, m, i);
          return Err(u.error), ps;
        }
        RoundDelivered(old(Tables(net)), t, Tables(net), ps, p, node, m, i);
        ps := ps + [p];
      }
      return Ok(()), ps;
    }

    /**
     * Round i of update_others: find_predecessor of the i-th target, then
     * update_finger_table(node, i) at the node it gives.
     */
    method UpdateRound(i: int, net: map<int, ChordNode<V>>, fuel: nat) returns (r: Result<(), RpcError>, ghost p: int)
      requires InNet(net) && 1 <= i <= m
      modifies net.Values`finger
      ensures InNet(net)
      ensures OnlyEntrySet(old(Tables(net)), Tables(net), i, node)
      ensures r.Ok? ==> p in net && PredecessorAnswer(Successors(old(Tables(net))), m, UpdateTarget(m, node, i), p)
      ensures r.Ok? && Accepts(old(Tables(net))[p], i, node, m) ==>
        i <= |Tables(net)[p]| && Tables(net)[p][i - 1].node == Some(node)
      ensures r.Err? ==> !r.error.UnknownMethod?
    {
      p := node;
      var q := FindPredecessor(UpdateTarget(m, node, i), net, fuel);
      if q.Err? {
        return Err(q.error), p;
      }
      var target := q.value;
      p := target;
      assert net[p].node == p && net[p].m == m && net[p].Valid();
      ghost var t := Tables(net);
      assert Successors(t)[p] == SuccOf(net, p);
      assert net[p].Applies(node, i) <==> Accepts(t[p], i, node, m);
      // call_rpc(p, 'update_finger_table', node, i)
      var u := net[target].UpdateFingerTable(node, i, net);
      if u.Err? {
        return Err(u.error), p;
      }
      return Ok(()), p;
    }

    // -------------------------------------------------------------------
    // Storage
    // -------------------------------------------------------------------

    /** The ownership test of put_value and get_value: id in (predecessor, node]. */
    ghost predicate Owns(id: int)
      reads this`predecessor
    {
      predecessor.Some? && NewModRange(predecessor.value + 1, node + 1, Pow2(m)).Covers(id)
    }

    /**
     * put_value on an already-hashed id: store locally when this node owns
     * id, otherwise forward to find_successor(id).
     */
    method PutValue(id: int, data: V, net: map<int, ChordNode<V>>, fuel: nat) returns (r: Result<(), RpcError>)
      requires InNet(net)
      modifies net.Values`keys
      decreases fuel
      ensures InNet(net)
      ensures old(Owns(id)) ==> r == Ok(()) && Stores(net) == old(Stores(net))[node := old(keys)[id := data]]
      ensures r.Ok? ==> exists o :: o in net && net[o].Owns(id)
                                    && Stores(net) == old(Stores(net))[o := old(net[o].keys)[id := data]]
      ensures r.Err? ==> Stores(net) == old(Stores(net)) && !r.error.UnknownMethod?
    {
      if predecessor.None? {
        return Err(TypeError);
      }
      var owns := Contains(NewModRange(predecessor.value + 1, node + 1, Pow2(m)), id);
      if owns {
        SetKeys(keys[id := data], net);
        return Ok(());
      }
      var n' := FindSuccessor(id, net, fuel);
      if n'.Err? {
        return Err(n'.error);
      }
      if fuel == 0 {
        return Err(HopLimit);
      }
      if n'.value !in net {
        return Err(ConnectionFailure(Some(n'.value)));
      }
      // call_rpc(n', 'put_value', id, data): this node itself when n' is its own identifier
      assert net[n'.value].node == n'.value && net[n'.value].m == m;
      r := net[n'.value].PutValue(id, data, net, fuel - 1);
    }

    /**
     * get_value on an already-hashed id: read locally when this node owns
     * id, otherwise forward to find_successor(id).
     */
    method GetValue(id: int, net: map<int, ChordNode<V>>, fuel: nat) returns (r: Result<Option<V>, RpcError>)
      requires InNet(net)
      decreases fuel
      ensures Owns(id) ==> r == Ok(Lookup(keys, id))
      ensures r.Ok? ==> ReadFromOwner(net, id, r.value)
      ensures r.Err? ==> !r.error.UnknownMethod?
    {
      if predecessor.None? {
        return Err(TypeError);
      }
      var owns := Contains(NewModRange(predecessor.value + 1, node + 1, Pow2(m)), id);
      if owns {
        return Ok(if id in keys then Some(keys[id]) else None);
      }
      var n' := FindSuccessor(id, net, fuel);
      if n'.Err? {
        return Err(n'.error);
      }
      if fuel == 0 {
        return Err(HopLimit);
      }
      if n'.value !in net {
        return Err(ConnectionFailure(Some(n'.value)));
      }
      assert net[n'.value].node == n'.value && net[n'.value].m == m;
      r := net[n'.value].GetValue(id, net, fuel - 1);
    }

    // -------------------------------------------------------------------
    // Remote procedure calls by name
    // -------------------------------------------------------------------

    /**
     * dispatch_rpc: run the named operation on this node.  Exactly the seven
     * names of RpcNames are served; any other name is a ValueError.
     */
    method DispatchRpc(name: string, arg1: Arg<V>, arg2: Arg<V>, net: map<int, ChordNode<V>>, fuel: nat)
        returns (r: Result<Reply<V>, RpcError>)
      requires InNet(net)
      modifies net.Values`finger, net.Values`keys
      ensures InNet(net)
      ensures (r.Err? && r.error.UnknownMethod?) <==> name !in RpcNames
      ensures name !in RpcNames ==>
        r == Err(UnknownMethod(name)) && Tables(net) == old(Tables(net)) && Stores(net) == old(Stores(net))
      ensures name == "successor" ==>
        r == Ok(NodeId(old(Successor()))) && Tables(net) == old(Tables(net)) && Stores(net) == old(Stores(net))
      ensures name == "predecessor" && arg1.Nil? ==>
        r == Ok(NodeId(old(Successor()))) && Tables(net) == old(Tables(net)) && Stores(net) == old(Stores(net))
      ensures name == "predecessor" && arg1.Id? ==>
        r == Ok(NodeId(Some(arg1.id))) && Stores(net) == old(Stores(net))
        && Tables(net) == old(Tables(net))[node := old(finger)[0 := old(finger)[0].(node := Some(arg1.id))]]
      ensures name == "find_successor" ==>
        Tables(net) == old(Tables(net)) && Stores(net) == old(Stores(net))
        && (r.Ok? ==> r.value.NodeId? && r.value.id.Some?)
      ensures name == "find_successor" && arg1.Id? && r.Ok? ==>
        exists p :: p in net && SuccOf(net, p) == r.value.id && SuccessorRange(p, r.value.id.value, m).Covers(arg1.id)
      ensures name == "find_successor" && arg1.Id? && r.Ok? && SuccessorsConsistent(net, m) ==>
        IsOwner(net.Keys, arg1.id, r.value.id.value, Pow2(m))
      ensures name == "closest_preceding_finger" && arg1.Id? ==>
        Tables(net) == old(Tables(net)) && Stores(net) == old(Stores(net))
        && r.Ok? && r.value.NodeId? && r.value.id.Some?
        && (r.value.id == Some(node) || exists i :: 0 <= i < m && old(finger)[i].node == r.value.id)
      ensures name == "get_value" ==> Tables(net) == old(Tables(net)) && Stores(net) == old(Stores(net))
      ensures name == "get_value" && arg1.Id? && Owns(arg1.id) ==> r == Ok(Value(Lookup(keys, arg1.id)))
      ensures name == "get_value" && arg1.Id? && r.Ok? ==> r.value.Value? && ReadFromOwner(net, arg1.id, r.value.value)
      ensures name == "put_value" ==> Tables(net) == old(Tables(net))
      ensures name == "put_value" && arg1.Id? && arg2.Data? && old(Owns(arg1.id)) ==>
        r == Ok(Done) && Stores(net) == old(Stores(net))[node := old(keys)[arg1.id := arg2.data]]
      ensures name == "put_value" && arg1.Id? && arg2.Data? && r.Ok? ==>
        exists o :: o in net && net[o].Owns(arg1.id)
          && Stores(net) == old(Stores(net))[o := old(net[o].keys)[arg1.id := arg2.data]]
      ensures name == "put_value" && r.Err? ==> Stores(net) == old(Stores(net))
      ensures name == "update_finger_table" ==> Stores(net) == old(Stores(net))
      ensures name == "update_finger_table" && arg1.Id? && arg2.Id? ==>
        OnlyEntrySet(old(Tables(net)), Tables(net), arg2.id, arg1.id)
      ensures name == "update_finger_table" && arg1.Id? && arg2.Id? && old(Applies(arg1.id, arg2.id)) ==>
        finger[arg2.id - 1].node == Some(arg1.id) && r != Ok(Updated(false))
      ensures (name == "update_finger_table" && arg1.Id? && arg2.Id? && 1 <= arg2.id <= m
               && old(finger[arg2.id - 1].node).Some? && !old(Applies(arg1.id, arg2.id))) ==>
        r == Ok(Updated(false)) && Tables(net) == old(Tables(net))
    {
      if name == "get_value" {
        if !arg1.Id? {
          return Err(TypeError);
        }
        var v := GetValue(arg1.id, net, fuel);
        if v.Err? {
          return Err(v.error);
        }
        return Ok(Value(v.value));
      } else if name == "put_value" {
        if !(arg1.Id? && arg2.Data?) {
          return Err(TypeError);
        }
        var u := PutValue(arg1.id, arg2.data, net, fuel);
        if u.Err? {
          return Err(u.error);
        }
        return Ok(Done);
      } else if name == "successor" {
        return Ok(NodeId(Successor()));
      } else if name == "find_successor" {
        if !arg1.Id? {
          return Err(TypeError);
        }
        var f := FindSuccessor(arg1.id, net, fuel);
        if f.Err? {
          return Err(f.error);
        }
        return Ok(NodeId(Some(f.value)));
      } else if name == "predecessor" {
        // the 'predecessor' call overwrites the successor, as written
        if arg1.Data? {
          return Err(TypeError);
        }
        if arg1.Id? {
          SetSuccessor(arg1.id, net);
        }
        return Ok(NodeId(Successor()));
      } else if name == "closest_preceding_finger" {
        if !arg1.Id? {
          return Err(TypeError);
        }
        var c := ClosestPrecedingFinger(arg1.id);
        return Ok(NodeId(Some(c)));
      } else if name == "update_finger_table" {
        if !(arg1.Id? && arg2.Id?) {
          return Err(TypeError);
        }
        var u := UpdateFingerTable(arg1.id, arg2.id, net);
        if u.Err? {
          return Err(u.error);
        }
        return Ok(Updated(u.value));
      } else {
        return Err(UnknownMethod(name));
      }
    }

    /** call_rpc: dispatch locally when target is this node, else on the target's node. */
    method CallRpc(target: int, name: string, arg1: Arg<V>, arg2: Arg<V>, net: map<int, ChordNode<V>>, fuel: nat)
        returns (r: Result<Reply<V>, RpcError>)
      requires InNet(net)
      modifies net.Values`finger, net.Values`keys
      ensures InNet(net)
      ensures target !in net ==>
        r == Err(ConnectionFailure(Some(target))) && Tables(net) == old(Tables(net)) && Stores(net) == old(Stores(net))
      ensures target in net && name !in RpcNames ==>
        r == Err(UnknownMethod(name)) && Tables(net) == old(Tables(net)) && Stores(net) == old(Stores(net))
      ensures name == "find_successor" ==>
        Tables(net) == old(Tables(net)) && Stores(net) == old(Stores(net))
        && (r.Ok? ==> r.value.NodeId? && r.value.id.Some?)
      ensures name == "find_successor" && arg1.Id? && r.Ok? ==>
        exists p :: p in net && SuccOf(net, p) == r.value.id && SuccessorRange(p, r.value.id.value, m).Covers(arg1.id)
      ensures name == "find_successor" && arg1.Id? && r.Ok? && SuccessorsConsistent(net, m) ==>
        IsOwner(net.Keys, arg1.id, r.value.id.value, Pow2(m))
      ensures name == "get_value" ==> Tables(net) == old(Tables(net)) && Stores(net) == old(Stores(net))
      ensures name == "get_value" && arg1.Id? && r.Ok? ==> r.value.Value? && ReadFromOwner(net, arg1.id, r.value.value)
      ensures name == "put_value" && arg1.Id? && arg2.Data? && r.Ok? ==>
        exists o :: o in net && net[o].Owns(arg1.id)
          && Stores(net) == old(Stores(net))[o := old(net[o].keys)[arg1.id := arg2.data]]
      ensures name == "put_value" && r.Err? ==> Stores(net) == old(Stores(net))
    {
      if target == node {
        r := DispatchRpc(name, arg1, arg2, net, fuel);
      } else if target in net {
        assert net[target].node == target && net[target].m == m;
        r := net[target].DispatchRpc(name, arg1, arg2, net, fuel);
      } else {
        r := Err(ConnectionFailure(Some(target)));
      }
    }

    // -------------------------------------------------------------------
    // Joining
    // -------------------------------------------------------------------

    /**
     * init_finger_table as written: after asking the buddy for the successor
     * it calls 'get_predecessor', a name dispatch_rpc does not serve, so the
     * call always fails and the rest of the method never runs.
     */
    method InitFingerTable(net: map<int, ChordNode<V>>, fuel: nat) returns (r: Result<(), RpcError>)
      requires InNet(net) && buddy.Some?
      modifies net.Values`finger, net.Values`keys
      ensures InNet(net)
      ensures r.Err?
      ensures Stores(net) == old(Stores(net)) && Preds(net) == old(Preds(net))
      ensures Tables(net) == old(Tables(net))
              || exists s :: Tables(net) == old(Tables(net))[node := old(finger)[0 := old(finger)[0].(node := Some(s))]]
    {
      ghost var s0, p0 := Stores(net), Preds(net);
      var a := CallRpc(buddy.value, "find_successor", Id(finger[0].start), Nil, net, fuel);
      assert Preds(net) == p0;
      if a.Err? {
        return Err(a.error);
      }
      assert finger == Tables(net)[node] == old(finger);
      var succ := a.value.id.value;
      SetSuccessor(succ, net);
      assert Stores(net) == s0 && Preds(net) == p0;
      ghost var t1 := Tables(net);
      assert "get_predecessor" !in RpcNames;
      var b := CallRpc(succ, "get_predecessor", Nil, Nil, net, fuel);
      assert Tables(net) == t1 && Stores(net) == s0 && Preds(net) == p0;
      return Err(b.error);
    }

    /**
     * The body of init_finger_table's loop for index i: the node for entry
     * i + 1 is entry i's node when the new entry starts in [node, that node),
     * otherwise the buddy's find_successor answer for its start.
     */
    method NextEntry(i: int, net: map<int, ChordNode<V>>, fuel: nat) returns (r: Result<int, RpcError>)
      requires InNet(net) && buddy.Some? && buddy.value in net && 1 <= i < m && finger[i - 1].node.Some?
      ensures CopiesForward(finger, node, m, i) ==> r == Ok(finger[i - 1].node.value)
      ensures r.Ok? && !CopiesForward(finger, node, m, i) ==>
        SuccessorAnswer(Successors(Tables(net)), m, finger[i].start, r.value)
      ensures r.Ok? && !CopiesForward(finger, node, m, i) && SuccessorsConsistent(net, m) ==>
        IsOwner(net.Keys, finger[i].start, r.value, Pow2(m))
    {
      var prev := finger[i - 1].node.value;
      var copy := Contains(NewModRange(node, prev, Pow2(m)), finger[i].start);
      if copy {
        return Ok(prev);
      }
      assert net[buddy.value].node == buddy.value && net[buddy.value].m == m;
      r := net[buddy.value].FindSuccessor(finger[i].start, net, fuel);
      if r.Ok? {
        AnswerInNet(net, m, finger[i].start, r.value);
      }
    }

    /**
     * The loop of init_finger_table over entries 2..m: each entry takes the
     * node NextEntry chooses, and the first failing lookup ends the loop.
     */
    method FillFingers(net: map<int, ChordNode<V>>, fuel: nat) returns (r: Result<(), RpcError>)
      requires InNet(net) && buddy.Some? && buddy.value in net && finger[0].node.Some?
      modifies net.Values`finger
      ensures InNet(net) && finger[0] == old(finger[0])
      ensures Tables(net) == old(Tables(net))[node := finger]
      ensures r.Ok? ==> forall j :: 0 <= j < m ==> finger[j].node.Some?
      ensures r.Ok? ==> CopiedForward(finger, node, m, m)
      ensures r.Ok? ==> LookedUp(finger, node, m, m, Successors(Tables(net)))
    {
      ghost var succ := Successors(Tables(net));
      for i := 1 to m
        invariant InNet(net) && finger[0] == old(finger[0])
        invariant Tables(net) == old(Tables(net))[node := finger]
        invariant Successors(Tables(net)) == succ
        invariant forall j :: 0 <= j < i ==> finger[j].node.Some?
        invariant CopiedForward(finger, node, m, i)
        invariant LookedUp(finger, node, m, i, succ)
      {
        var v := NextEntry(i, net, fuel);
        if v.Err? {
          return Err(v.error);
        }
        CopiedForwardStep(finger, node, m, i, Some(v.value));
        LookedUpStep(finger, node, m, i, Some(v.value), succ);
        ghost var before := finger;
        SetFingerNode(i + 1, Some(v.value), net);
        UpdateTwice(old(Tables(net)), node, before, finger);
        SuccessorsKept(old(Tables(net)), node, finger);
      }
      return Ok(());
    }

    /**
     * The first call of init_finger_table: the buddy's find_successor for
     * entry 1's start.
     */
    method AskSuccessor(net: map<int, ChordNode<V>>, fuel: nat) returns (r: Result<int, RpcError>)
      requires InNet(net) && buddy.Some?
      ensures buddy.value !in net ==> r == Err(ConnectionFailure(buddy))
      ensures r.Ok? ==> buddy.value in net && SuccessorAnswer(Successors(Tables(net)), m, finger[0].start, r.value)
      ensures r.Ok? && SuccessorsConsistent(net, m) ==> IsOwner(net.Keys, finger[0].start, r.value, Pow2(m))
    {
      if buddy.value !in net {
        return Err(ConnectionFailure(buddy));
      }
      assert net[buddy.value].node == buddy.value && net[buddy.value].m == m;
      r := net[buddy.value].FindSuccessor(finger[0].start, net, fuel);
      if r.Ok? {
        AnswerInNet(net, m, finger[0].start, r.value);
      }
    }

    /**
     * The first half of init_finger_table with the calls it evidently
     * intends: take the successor from the buddy's find_successor, take over
     * the successor's predecessor and become the successor's predecessor.
     */
    method TakeSuccessor(net: map<int, ChordNode<V>>, fuel: nat) returns (r: Result<(), RpcError>)
      requires InNet(net) && buddy.Some?
      modifies this`finger, net.Values`predecessor
      ensures InNet(net)
      ensures Tables(net) == old(Tables(net))[node := finger]
      ensures r.Err? ==> Preds(net) == old(Preds(net))
      ensures r.Ok? ==> buddy.value in net && Successor().Some? && Successor().value in net
      ensures r.Ok? ==> PredecessorTaken(old(Preds(net)), Preds(net), node, Successor())
      ensures r.Ok? ==> SuccessorAnswer(Successors(old(Tables(net))), m, finger[0].start, Successor().value)
      ensures r.Ok? && old(SuccessorsConsistent(net, m)) ==> IsOwner(net.Keys, finger[0].start, Successor().value, Pow2(m))
    {
      var s := AskSuccessor(net, fuel);
      if s.Err? {
        return Err(s.error);
      }
      var succ := s.value;
      SetSuccessor(succ, net);
      if succ !in net {
        return Err(ConnectionFailure(Some(succ)));
      }
      SwapPredecessor(succ, net);
      return Ok(());
    }

    /** The predecessor handshake: take over the successor's predecessor, then become the successor's predecessor. */
    method SwapPredecessor(succ: int, net: map<int, ChordNode<V>>)
      requires InNet(net) && succ in net
      modifies net.Values`predecessor
      ensures InNet(net)
      ensures PredecessorTaken(old(Preds(net)), Preds(net), node, Some(succ))
    {
      assert net[succ].node == succ && net[succ].m == m;
      SetPredecessor(net[succ].predecessor, net);
      net[succ].SetPredecessor(Some(node), net);
    }

    /**
     * init_finger_table with the calls it evidently intends: TakeSuccessor,
     * then fill entries 2..m by the copy-forward rule, asking the buddy's
     * find_successor when the rule does not apply.
     */
    method InitFingerTableFixed(net: map<int, ChordNode<V>>, fuel: nat) returns (r: Result<(), RpcError>)
      requires InNet(net) && buddy.Some?
      modifies net.Values`finger, net.Values`predecessor
      ensures InNet(net)
      ensures Tables(net) == old(Tables(net))[node := finger]
      ensures Preds(net) == old(Preds(net)) || PredecessorTaken(old(Preds(net)), Preds(net), node, Successor())
      ensures r.Ok? ==> Successor().Some? && Successor().value in net
      ensures r.Ok? ==> PredecessorTaken(old(Preds(net)), Preds(net), node, Successor())
      ensures r.Ok? ==> SuccessorAnswer(Successors(old(Tables(net))), m, finger[0].start, Successor().value)
      ensures r.Ok? && old(SuccessorsConsistent(net, m)) ==> IsOwner(net.Keys, finger[0].start, Successor().value, Pow2(m))
      ensures r.Ok? ==> forall j :: 0 <= j < m ==> finger[j].node.Some?
      ensures r.Ok? ==> CopiedForward(finger, node, m, m)
      ensures r.Ok? ==> LookedUp(finger, node, m, m, Successors(Tables(net)))
      ensures r.Ok? && SuccessorsOwn(Successors(Tables(net)), m) ==>
        forall j :: 0 <= j < m ==> IsOwner(net.Keys, finger[j].start, finger[j].node.value, Pow2(m))
    {
      r := TakeSuccessor(net, fuel);
      if r.Err? {
        return;
      }
      ghost var t1 := Tables(net);
      r := FillFingers(net, fuel);
      UpdateTwice(old(Tables(net)), node, t1[node], finger);
      if r.Ok? && SuccessorsOwn(Successors(Tables(net)), m) {
        FilledTableOwns(net);
      }
    }

    /**
     * With every successor pointer naming the next live node, a table filled
     * by the copy-forward rule and find_successor holds the owner of every
     * entry's start.
     */
    lemma FilledTableOwns(net: map<int, ChordNode<V>>)
      requires InNet(net) && finger[0].node.Some?
      requires CopiedForward(finger, node, m, m) && LookedUp(finger, node, m, m, Successors(Tables(net)))
      requires SuccessorsOwn(Successors(Tables(net)), m)
      ensures forall j :: 0 <= j < m ==> finger[j].node.Some? && IsOwner(net.Keys, finger[j].start, finger[j].node.value, Pow2(m))
    {
      var succ := Successors(Tables(net));
      assert succ.Keys == net.Keys;
      assert OwnsNext(succ, m, node);
      assert succ[node] == finger[0].node;
      assert finger[0].start == FingerStart(m, node, 1) == (node + 1) % Pow2(m);
      OwnerNormalize(net.Keys, node + 1, finger[0].node.value, Pow2(m));
      FilledFingersOwn(succ, node, m, finger);
    }

    /** `self.joined = True`: no table and no predecessor changes. */
    method MarkJoined(ghost net: map<int, ChordNode<V>>)
      requires InNet(net)
      modifies this`joined
      ensures InNet(net) && joined
      ensures Tables(net) == old(Tables(net)) && Preds(net) == old(Preds(net))
    {
      joined := true;
    }

    /** The alone branch of join: every entry and the predecessor point at this node. */
    method StartAlone(net: map<int, ChordNode<V>>)
      requires InNet(net)
      modifies net.Values`finger, net.Values`predecessor
      ensures InNet(net)
      ensures predecessor == Some(node) && forall i :: 0 <= i < m ==> finger[i].node == Some(node)
      ensures Tables(net) == old(Tables(net))[node := finger] && Preds(net) == old(Preds(net))[node := Some(node)]
    {
      for i := 1 to m + 1
        invariant InNet(net)
        invariant forall j :: 0 <= j < i - 1 ==> finger[j].node == Some(node)
        invariant Tables(net) == old(Tables(net))[node := finger]
        invariant Preds(net) == old(Preds(net))
      {
        SetFingerNode(i, Some(node), net);
      }
      SetPredecessor(Some(node), net);
    }

    /**
     * join as written: through the buddy when there is one, which runs
     * init_finger_table as written and therefore always fails before
     * `joined` is set; alone otherwise.
     */
    method Join(net: map<int, ChordNode<V>>, fuel: nat) returns (r: Result<(), RpcError>)
      requires InNet(net)
      modifies net.Values`finger, net.Values`predecessor, net.Values`keys, this`joined
      ensures InNet(net)
      ensures buddy.Some? ==>
        r.Err? && joined == old(joined) && Stores(net) == old(Stores(net)) && Preds(net) == old(Preds(net))
        && (Tables(net) == old(Tables(net))
            || exists s :: Tables(net) == old(Tables(net))[node := old(finger)[0 := old(finger)[0].(node := Some(s))]])
      ensures buddy.None? ==>
        r == Ok(()) && predecessor == Some(node) && (forall i :: 0 <= i < m ==> finger[i].node == Some(node))
        && Tables(net) == old(Tables(net))[node := finger] && Preds(net) == old(Preds(net))[node := Some(node)]
      ensures joined <==> r.Ok? || old(joined)
    {
      if buddy.Some? {
        var a := InitFingerTable(net, fuel);
        return Err(a.error);
      }
      StartAlone(net);
      joined := true;
      return Ok(());
    }

    /**
     * The buddy branch of join with the corrected init_finger_table: fill the
     * table (the snapshot mid below), then update_others, which only points
     * other entries at this node.
     */
    method JoinThroughBuddy(net: map<int, ChordNode<V>>, fuel: nat)
      returns (r: Result<(), RpcError>, ghost mid: map<int, seq<FingerEntry>>, ghost ps: seq<int>)
      requires InNet(net) && buddy.Some?
      modifies net.Values`finger, net.Values`predecessor
      ensures InNet(net)
      ensures r.Ok? ==> JoinedThroughBuddy(old(Tables(net)), old(Preds(net)), Tables(net), Preds(net), mid, ps, node, m)
    {
      ps := [];
      r := InitFingerTableFixed(net, fuel);
      mid := Tables(net);
      if r.Err? {
        return;
      }
      ghost var preds := Preds(net);
      assert mid[node] == finger && FilledTable(finger, node, m, Successors(mid));
      r, ps := UpdateOthers(net, fuel);
      assert Preds(net) == preds;
    }

    /**
     * join with the corrected init_finger_table: through the buddy, fill
     * the table and run update_others; alone otherwise.
     */
    method JoinFixed(net: map<int, ChordNode<V>>, fuel: nat)
      returns (r: Result<(), RpcError>, ghost mid: map<int, seq<FingerEntry>>, ghost ps: seq<int>)
      requires InNet(net)
      modifies net.Values`finger, net.Values`predecessor, this`joined
      ensures InNet(net)
      ensures buddy.None? ==>
        r == Ok(()) && predecessor == Some(node) && (forall i :: 0 <= i < m ==> finger[i].node == Some(node))
        && Tables(net) == old(Tables(net))[node := finger] && Preds(net) == old(Preds(net))[node := Some(node)]
      ensures buddy.Some? && r.Ok? ==> JoinedThroughBuddy(old(Tables(net)), old(Preds(net)), Tables(net), Preds(net), mid, ps, node, m)
      ensures joined <==> r.Ok? || old(joined)
    {
      mid, ps := Tables(net), [];
      if buddy.Some? {
        r, mid, ps := JoinThroughBuddy(net, fuel);
        if r.Err? {
          return;
        }
      } else {
        StartAlone(net);
      }
      MarkJoined(net);
      r := Ok(());
    }
  }

  /**
   * A put followed by a get of the same identifier, both entered at node
   * `entry`: with consistent predecessors, both reach the single owner, so
   * the get returns the data the put stored.
   */
  method PutThenGet<V>(net: map<int, ChordNode<V>>, m: nat, entry: int, id: int, data: V, fuel: nat)
      returns (put: Result<(), RpcError>, got: Result<Option<V>, RpcError>)
    requires Network(net, m) && PredecessorsConsistent(net, m) && entry in net
    modifies net.Values`keys
    ensures put.Ok? && got.Ok? ==> got.value == Some(data)
  {
    put := net[entry].PutValue(id, data, net, fuel);
    got := net[entry].GetValue(id, net, fuel);
    if put.Ok? && got.Ok? {
      ghost var o1 :| o1 in net && net[o1].Owns(id) && Stores(net) == old(Stores(net))[o1 := old(net[o1].keys)[id := data]];
      ghost var o2 :| o2 in net && net[o2].Owns(id) && got.value == Lookup(net[o2].keys, id);
      OwnersAgree(net, m, o1, o2, id);
      assert net[o1].keys == Stores(net)[o1];
    }
  }

  /**
   * A node that starts a network alone and joins answers every lookup with
   * itself: find_predecessor and find_successor of every identifier are
   * this node.
   */
  method BootstrapLookup(m: nat, n: int, x: int) returns (pred: Result<int, RpcError>, succ: Result<int, RpcError>)
    requires m >= 1 && 0 <= n < Pow2(m) && 0 <= x < Pow2(m)
    ensures pred == Ok(n) && succ == Ok(n)
  {
    var c := new ChordNode<int>(m, n, None);
    var net := map[n := c];
    var j := c.Join(net, 0);
    pred := c.FindPredecessor(x, net, 0);
    succ := c.FindSuccessor(x, net, 0);
  }
}
