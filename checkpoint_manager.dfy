/** The checkpoint store: an in-memory dictionary of checkpoint records
    keyed by id, a counter that issues ids, and a proximity graph whose
    edges are synthesised once, when the newer endpoint is inserted.

    Keys are the integers themselves (the system keys its dictionary by
    the decimal string of the id, which is one-to-one on integers). The
    dictionary's insertion order, which decides the order in which the
    linking pass visits nodes, is kept explicitly as `order`. */
module CheckpointStore {
  import opened Common
  import opened PassagePoint

  /** Edge radius in metres, compared squared and inclusively. */
  const EdgeRadius: real := 3.0

  datatype Connection = Connection(
    toCheckpointId: int,
    distance: real,
    difficulty: real,
    averageSpeed: real,
    bestApproachAngle: real)

  datatype LidarReadings = LidarReadings(left: real, right: real)

  /** One entry of a checkpoint's passage history. */
  datatype PassageRecord = PassageRecord(
    timestamp: string,
    approachSide: Side,
    lidarReadings: LidarReadings,
    orientation: Orientation,
    velocity: Vec3)

  datatype Checkpoint = Checkpoint(
    id: int,
    position: Vec3,
    connections: seq<Connection>,
    passageHistory: seq<PassageRecord>)

  /** The keys a shallow merge may overwrite; None leaves a field alone. */
  datatype CheckpointPatch = CheckpointPatch(
    id: Option<int>,
    position: Option<Vec3>,
    connections: Option<seq<Connection>>,
    passageHistory: Option<seq<PassageRecord>>)

  /** An edge as the linking pass creates it: default difficulty 1.0,
      average speed 0.0 and best approach angle 0.0. */
  function NewEdge(toId: int, distance: real): Connection
  {
    Connection(toId, distance, 1.0, 0.0, 0.0)
  }

  predicate Near(a: Vec3, b: Vec3)
  {
    SqDist(a, b) <= EdgeRadius * EdgeRadius
  }

  /** The single passage-history entry of a new checkpoint. An explicit
      orientation overrides the sample's own. */
  function NewPassageRecord(passageData: PassageSample, orientation: Option<Orientation>, now: string): (r: PassageRecord)
    ensures r.orientation == (if orientation.Some? then orientation.value else passageData.orientation)
    ensures r.approachSide == passageData.info.side
    ensures r.lidarReadings == LidarReadings(passageData.info.leftLidar, passageData.info.rightLidar)
    ensures r.velocity == passageData.velocity
  {
    PassageRecord(
      now,
      passageData.info.side,
      LidarReadings(passageData.info.leftLidar, passageData.info.rightLidar),
      if orientation.Some? then orientation.value else passageData.orientation,
      passageData.velocity)
  }

  /** A new checkpoint before linking: no connections, one history entry. */
  function NewCheckpoint(id: int, position: Vec3, passageData: PassageSample, orientation: Option<Orientation>, now: string): (r: Checkpoint)
    ensures r.id == id && r.position == position
    ensures r.connections == []
    ensures r.passageHistory == [NewPassageRecord(passageData, orientation, now)]
  {
    Checkpoint(id, Vec3(position.x, position.y, position.z), [], [NewPassageRecord(passageData, orientation, now)])
  }

  /** The edges the linking pass gives the new node `newId` while it visits
      `keys` in order: one per other node within the edge radius. */
  function NewNodeEdges(keys: seq<int>, cps: map<int, Checkpoint>, newId: int, newPos: Vec3, sqrt: real -> real): seq<Connection>
  {
    if keys == [] then []
    else
      var k := keys[|keys| - 1];
      NewNodeEdges(keys[..|keys| - 1], cps, newId, newPos, sqrt)
        + (if k != newId && k in cps && Near(newPos, cps[k].position)
           then [NewEdge(k, sqrt(SqDist(newPos, cps[k].position)))]
           else [])
  }

  /** An older node after the linking pass: one mirrored edge appended when
      it is within the edge radius of the new node. */
  function WithMirrorEdge(cp: Checkpoint, newId: int, newPos: Vec3, sqrt: real -> real): Checkpoint
  {
    if Near(newPos, cp.position)
    then cp.(connections := cp.connections + [NewEdge(newId, sqrt(SqDist(newPos, cp.position)))])
    else cp
  }

  /** The store after the linking pass of node `newId` has visited `keys`
      (all of them, in a finished pass). */
  function Linked(cps: map<int, Checkpoint>, keys: seq<int>, newId: int, sqrt: real -> real): map<int, Checkpoint>
    requires newId in cps
  {
    var newPos := cps[newId].position;
    map k | k in cps ::
      if k == newId
      then cps[k].(connections := cps[k].connections + NewNodeEdges(keys, cps, newId, newPos, sqrt))
      else if k in keys then WithMirrorEdge(cps[k], newId, newPos, sqrt)
      else cps[k]
  }

  /** A connection list with every edge to `id` removed, order kept. */
  function WithoutEdgesTo(conns: seq<Connection>, id: int): seq<Connection>
  {
    if conns == [] then []
    else (if conns[0].toCheckpointId != id then [conns[0]] else []) + WithoutEdgesTo(conns[1..], id)
  }

  /** The store after deleting `id`: the node is gone and every surviving
      node has lost its edges to it. */
  function Pruned(cps: map<int, Checkpoint>, id: int): map<int, Checkpoint>
  {
    map k | k in cps && k != id :: cps[k].(connections := WithoutEdgesTo(cps[k].connections, id))
  }

  /** The store after the stripping pass of a deletion has visited `keys`:
      those nodes have lost their edges to `id`, the others are untouched. */
  function Stripped(cps: map<int, Checkpoint>, keys: seq<int>, id: int): map<int, Checkpoint>
  {
    map k | k in cps ::
      if k in keys then cps[k].(connections := WithoutEdgesTo(cps[k].connections, id)) else cps[k]
  }

  function RemoveKey(keys: seq<int>, id: int): seq<int>
  {
    if keys == [] then []
    else (if keys[0] != id then [keys[0]] else []) + RemoveKey(keys[1..], id)
  }

  /** Shallow merge: each key present in the patch overwrites the record's. */
  function Merge(cp: Checkpoint, patch: CheckpointPatch): Checkpoint
  {
    Checkpoint(
      if patch.id.Some? then patch.id.value else cp.id,
      if patch.position.Some? then patch.position.value else cp.position,
      if patch.connections.Some? then patch.connections.value else cp.connections,
      if patch.passageHistory.Some? then patch.passageHistory.value else cp.passageHistory)
  }

  predicate HasEdge(cp: Checkpoint, toId: int, distance: real)
  {
    exists c :: c in cp.connections && c.toCheckpointId == toId && c.distance == distance
  }

  /** Every edge u -> v leads to a stored node v that has an edge v -> u of
      the same length; applied to both ends, u -> v exists iff v -> u does. */
  ghost predicate Symmetric(cps: map<int, Checkpoint>)
  {
    forall u, c :: u in cps && c in cps[u].connections ==>
      c.toCheckpointId in cps && HasEdge(cps[c.toCheckpointId], u, c.distance)
  }

  predicate Distinct(keys: seq<int>)
  {
    forall i, j :: 0 <= i < j < |keys| ==> keys[i] != keys[j]
  }

  // ---------------------------------------------------------------------
  // Lemmas about the specification functions

  lemma {:induction false} NewNodeEdgesSound(keys: seq<int>, cps: map<int, Checkpoint>, newId: int, newPos: Vec3, sqrt: real -> real, c: Connection)
    requires c in NewNodeEdges(keys, cps, newId, newPos, sqrt)
    ensures c.toCheckpointId in keys && c.toCheckpointId != newId && c.toCheckpointId in cps
    ensures Near(newPos, cps[c.toCheckpointId].position)
    ensures c == NewEdge(c.toCheckpointId, sqrt(SqDist(newPos, cps[c.toCheckpointId].position)))
  {
    if keys != [] {
      var init := keys[..|keys| - 1];
      if c in NewNodeEdges(init, cps, newId, newPos, sqrt) {
        NewNodeEdgesSound(init, cps, newId, newPos, sqrt, c);
        assert c.toCheckpointId in keys by {
          var i :| 0 <= i < |init| && init[i] == c.toCheckpointId;
          assert keys[i] == init[i];
        }
      }
    }
  }

  lemma {:induction false} NewNodeEdgesComplete(keys: seq<int>, cps: map<int, Checkpoint>, newId: int, newPos: Vec3, sqrt: real -> real, k: int)
    requires k in keys && k != newId && k in cps && Near(newPos, cps[k].position)
    ensures NewEdge(k, sqrt(SqDist(newPos, cps[k].position))) in NewNodeEdges(keys, cps, newId, newPos, sqrt)
  {
    var init := keys[..|keys| - 1];
    if keys[|keys| - 1] != k {
      assert k in init by {
        var i :| 0 <= i < |keys| && keys[i] == k;
        assert i < |keys| - 1 && init[i] == k;
      }
      NewNodeEdgesComplete(init, cps, newId, newPos, sqrt, k);
    }
  }

  /** Each pre-existing node within the radius gets exactly one edge from
      the new node when the visited keys are distinct. */
  lemma {:induction false} NewNodeEdgesOnePerTarget(keys: seq<int>, cps: map<int, Checkpoint>, newId: int, newPos: Vec3, sqrt: real -> real, i: int, j: int)
    requires Distinct(keys)
    requires 0 <= i < j < |NewNodeEdges(keys, cps, newId, newPos, sqrt)|
    ensures NewNodeEdges(keys, cps, newId, newPos, sqrt)[i].toCheckpointId != NewNodeEdges(keys, cps, newId, newPos, sqrt)[j].toCheckpointId
  {
    var init := keys[..|keys| - 1];
    var k := keys[|keys| - 1];
    var front := NewNodeEdges(init, cps, newId, newPos, sqrt);
    assert Distinct(init);
    if j < |front| {
      NewNodeEdgesOnePerTarget(init, cps, newId, newPos, sqrt, i, j);
    } else {
      var es := NewNodeEdges(keys, cps, newId, newPos, sqrt);
      assert es[i] == front[i];
      assert es[i] in front;
      NewNodeEdgesSound(init, cps, newId, newPos, sqrt, es[i]);
      assert es[j].toCheckpointId == k;
      assert k !in init;
    }
  }

  /** One step of the linking pass: visiting one more key `k` appends at
      most one edge to the new node and one mirrored edge to `k`. */
  lemma LinkedSnoc(cps: map<int, Checkpoint>, done: seq<int>, k: int, newId: int, sqrt: real -> real)
    requires newId in cps && k in cps && k !in done
    ensures var before := Linked(cps, done, newId, sqrt);
      var newPos := cps[newId].position;
      Linked(cps, done + [k], newId, sqrt) ==
        if k != newId && Near(newPos, cps[k].position)
        then
          var d := sqrt(SqDist(newPos, cps[k].position));
          before[newId := before[newId].(connections := before[newId].connections + [NewEdge(k, d)])]
                [k := before[k].(connections := before[k].connections + [NewEdge(newId, d)])]
        else before
  {
    assert (done + [k])[..|done|] == done;
    var newPos := cps[newId].position;
    var before := Linked(cps, done, newId, sqrt);
    var after := Linked(cps, done + [k], newId, sqrt);
    var base := cps[newId].connections;
    if k != newId && Near(newPos, cps[k].position) {
      var d := sqrt(SqDist(newPos, cps[k].position));
      var rhs := before[newId := before[newId].(connections := before[newId].connections + [NewEdge(k, d)])]
                       [k := before[k].(connections := before[k].connections + [NewEdge(newId, d)])];
      assert base + NewNodeEdges(done + [k], cps, newId, newPos, sqrt)
          == (base + NewNodeEdges(done, cps, newId, newPos, sqrt)) + [NewEdge(k, d)];
      forall j | j in cps
        ensures after[j] == rhs[j]
      {
      }
      assert after.Keys == rhs.Keys;
    } else {
      assert NewNodeEdges(done + [k], cps, newId, newPos, sqrt) == NewNodeEdges(done, cps, newId, newPos, sqrt);
      forall j | j in cps
        ensures after[j] == before[j]
      {
      }
      assert after.Keys == before.Keys;
    }
  }

  /** Before the pass has visited anything the store is unchanged. */
  lemma LinkedNothing(cps: map<int, Checkpoint>, newId: int, sqrt: real -> real)
    requires newId in cps
    ensures Linked(cps, [], newId, sqrt) == cps
  {
    var after := Linked(cps, [], newId, sqrt);
    assert cps[newId].connections + [] == cps[newId].connections;
    forall j | j in cps
      ensures after[j] == cps[j]
    {
    }
    assert after.Keys == cps.Keys;
  }

  /** One step of the stripping pass. */
  lemma StrippedSnoc(cps: map<int, Checkpoint>, done: seq<int>, k: int, id: int)
    requires k in cps
    ensures Stripped(cps, done + [k], id)
         == Stripped(cps, done, id)[k := cps[k].(connections := WithoutEdgesTo(cps[k].connections, id))]
  {
    var after := Stripped(cps, done + [k], id);
    var rhs := Stripped(cps, done, id)[k := cps[k].(connections := WithoutEdgesTo(cps[k].connections, id))];
    forall j | j in cps
      ensures after[j] == rhs[j]
    {
    }
    assert after.Keys == rhs.Keys;
  }

  /** Before the stripping pass has visited anything the store is unchanged. */
  lemma StrippedNothing(cps: map<int, Checkpoint>, id: int)
    ensures Stripped(cps, [], id) == cps
  {
    var after := Stripped(cps, [], id);
    forall j | j in cps
      ensures after[j] == cps[j]
    {
    }
    assert after.Keys == cps.Keys;
  }

  /** A finished stripping pass followed by removal of the key is `Pruned`. */
  lemma StrippedThenRemoved(cps: map<int, Checkpoint>, keys: seq<int>, id: int)
    requires forall k :: k in cps ==> k in keys
    ensures var s := Stripped(cps, keys, id); (map k | k in s && k != id :: s[k]) == Pruned(cps, id)
  {
    var s := Stripped(cps, keys, id);
    var lhs := map k | k in s && k != id :: s[k];
    var rhs := Pruned(cps, id);
    forall j | j in rhs
      ensures lhs[j] == rhs[j]
    {
    }
    assert lhs.Keys == rhs.Keys;
  }

  lemma {:induction false} WithoutEdgesToMembership(conns: seq<Connection>, id: int, c: Connection)
    ensures c in WithoutEdgesTo(conns, id) <==> c in conns && c.toCheckpointId != id
  {
    if conns != [] {
      WithoutEdgesToMembership(conns[1..], id, c);
      assert conns == [conns[0]] + conns[1..];
    }
  }

  lemma {:induction false} RemoveKeyMembership(keys: seq<int>, id: int, k: int)
    ensures k in RemoveKey(keys, id) <==> k in keys && k != id
  {
    if keys != [] {
      RemoveKeyMembership(keys[1..], id, k);
      assert keys == [keys[0]] + keys[1..];
    }
  }

  lemma {:induction false} RemoveKeyDistinct(keys: seq<int>, id: int)
    requires Distinct(keys)
    ensures Distinct(RemoveKey(keys, id))
  {
    if keys != [] {
      assert Distinct(keys[1..]);
      RemoveKeyDistinct(keys[1..], id);
      if keys[0] != id {
        RemoveKeyMembership(keys[1..], id, keys[0]);
        assert keys[0] !in keys[1..];
      }
    }
  }

  /** Linking a fresh node keeps the graph symmetric: every new edge has
      its mirror, and no old edge is lost. */
  lemma LinkedPreservesSymmetry(cps: map<int, Checkpoint>, keys: seq<int>, newId: int, rec: Checkpoint, sqrt: real -> real)
    requires Symmetric(cps)
    requires newId !in cps
    requires rec.connections == []
    requires forall k :: k in cps ==> k in keys
    ensures Symmetric(Linked(cps[newId := rec], keys, newId, sqrt))
  {
    var pre := cps[newId := rec];
    var post := Linked(pre, keys, newId, sqrt);
    var newPos := rec.position;
    forall u, c | u in post && c in post[u].connections
      ensures c.toCheckpointId in post && HasEdge(post[c.toCheckpointId], u, c.distance)
    {
      if u == newId {
        assert c in NewNodeEdges(keys, pre, newId, newPos, sqrt);
        NewNodeEdgesSound(keys, pre, newId, newPos, sqrt, c);
        var v := c.toCheckpointId;
        assert post[v] == WithMirrorEdge(pre[v], newId, newPos, sqrt);
        assert NewEdge(newId, c.distance) in post[v].connections;
      } else if c in cps[u].connections {
        var v := c.toCheckpointId;
        assert v in cps && HasEdge(cps[v], u, c.distance);
        var m :| m in cps[v].connections && m.toCheckpointId == u && m.distance == c.distance;
        assert v != newId;
        assert m in post[v].connections;
      } else {
        assert Near(newPos, cps[u].position);
        assert c == NewEdge(newId, sqrt(SqDist(newPos, cps[u].position)));
        NewNodeEdgesComplete(keys, pre, newId, newPos, sqrt, u);
        assert NewEdge(u, c.distance) in post[newId].connections;
      }
    }
  }

  /** Linking only appends: an older node keeps its position, its history
      and its old edges as a prefix, and gains at most the edge to the new
      node, exactly when it lies within the radius. */
  lemma LinkedOnlyAppends(cps: map<int, Checkpoint>, keys: seq<int>, newId: int, sqrt: real -> real, k: int)
    requires newId in cps && k in cps && k != newId && k in keys
    ensures var after := Linked(cps, keys, newId, sqrt)[k];
      && after.id == cps[k].id
      && after.position == cps[k].position
      && after.passageHistory == cps[k].passageHistory
      && after.connections[..|cps[k].connections|] == cps[k].connections
      && after.connections[|cps[k].connections|..] ==
           (if Near(cps[newId].position, cps[k].position)
            then [NewEdge(newId, sqrt(SqDist(cps[newId].position, cps[k].position)))]
            else [])
  {
  }

  /** Deleting a node keeps the graph symmetric and leaves no edge to it. */
  lemma PrunedPreservesSymmetry(cps: map<int, Checkpoint>, id: int)
    requires Symmetric(cps)
    ensures Symmetric(Pruned(cps, id))
    ensures forall k, c :: k in Pruned(cps, id) && c in Pruned(cps, id)[k].connections ==> c.toCheckpointId != id
  {
    var post := Pruned(cps, id);
    forall u, c | u in post && c in post[u].connections
      ensures c.toCheckpointId != id
      ensures c.toCheckpointId in post && HasEdge(post[c.toCheckpointId], u, c.distance)
    {
      WithoutEdgesToMembership(cps[u].connections, id, c);
      var v := c.toCheckpointId;
      var m :| m in cps[v].connections && m.toCheckpointId == u && m.distance == c.distance;
      WithoutEdgesToMembership(cps[v].connections, id, m);
    }
  }

  /** A merge that leaves `connections` alone keeps the graph symmetric. */
  lemma MergePreservesSymmetry(cps: map<int, Checkpoint>, id: int, patch: CheckpointPatch)
    requires Symmetric(cps) && id in cps
    requires patch.connections.None?
    ensures Symmetric(cps[id := Merge(cps[id], patch)])
  {
    var post := cps[id := Merge(cps[id], patch)];
    forall u, c | u in post && c in post[u].connections
      ensures c.toCheckpointId in post && HasEdge(post[c.toCheckpointId], u, c.distance)
    {
      assert c in cps[u].connections;
      var v := c.toCheckpointId;
      var m :| m in cps[v].connections && m.toCheckpointId == u && m.distance == c.distance;
      assert m in post[v].connections;
    }
  }

  /** ... and one that overwrites `connections` can break it. */
  lemma MergeOfConnectionsCanBreakSymmetry(cp: Checkpoint)
    ensures var cps := map[1 := cp.(connections := [])];
      && Symmetric(cps)
      && !Symmetric(cps[1 := Merge(cps[1], CheckpointPatch(None, None, Some([NewEdge(2, 1.0)]), None))])
  {
    var cps := map[1 := cp.(connections := [])];
    var post := cps[1 := Merge(cps[1], CheckpointPatch(None, None, Some([NewEdge(2, 1.0)]), None))];
    assert NewEdge(2, 1.0) in post[1].connections;
    assert 2 !in post;
  }

  class CheckpointManager {
    /** The records, keyed by id. */
    var checkpoints: map<int, Checkpoint>
    /** The dictionary's keys in insertion order. */
    var order: seq<int>
    /** The `last_checkpoint_id` counter of the metadata. */
    var lastCheckpointId: int
    /** The square root the host's maths library provides. */
    const sqrt: real -> real

    /** `order` lists each key of `checkpoints` exactly once. */
    ghost predicate Valid()
      reads this
    {
      && Distinct(order)
      && (forall k :: k in checkpoints <==> k in order)
    }

    /** The graph invariants: every live id was issued by the counter
        (1 to `lastCheckpointId`), and every edge is mirrored. */
    ghost predicate GraphInvariant()
      reads this
    {
      && 0 <= lastCheckpointId
      && (forall k :: k in checkpoints ==> 1 <= k <= lastCheckpointId)
      && Symmetric(checkpoints)
    }

    /** An empty store, as when no document exists yet. */
    constructor (sqrt: real -> real)
      ensures Valid() && GraphInvariant()
      ensures checkpoints == map[] && order == [] && lastCheckpointId == 0
      ensures this.sqrt == sqrt
    {
      checkpoints := map[];
      order := [];
      lastCheckpointId := 0;
      this.sqrt := sqrt;
    }

    /** Inserts a checkpoint at `position` with one passage record built
        from `passageData`, under the id `lastCheckpointId + 1`, then links
        it against every other node. */
    method AddCheckpoint(position: Vec3, passageData: PassageSample, orientation: Option<Orientation>, now: string)
      returns (newId: int)
      requires Valid()
      modifies this
      ensures Valid()
      ensures newId == old(lastCheckpointId) + 1 && lastCheckpointId == newId
      ensures order == if newId in old(order) then old(order) else old(order) + [newId]
      ensures checkpoints ==
        Linked(old(checkpoints)[newId := NewCheckpoint(newId, position, passageData, orientation, now)], order, newId, sqrt)
      ensures old(GraphInvariant()) ==> newId !in old(checkpoints) && GraphInvariant()
    {
      newId := lastCheckpointId + 1;
      var record := NewCheckpoint(newId, position, passageData, orientation, now);
      ghost var wasInvariant := GraphInvariant();
      ghost var before := checkpoints;
      checkpoints := checkpoints[newId := record];
      if newId !in order {
        order := order + [newId];
        assert Distinct(order) by {
          assert forall i :: 0 <= i < |order| - 1 ==> order[i] in old(order);
        }
      }
      lastCheckpointId := newId;
      UpdateConnections(newId);
      if wasInvariant {
        assert newId !in before;
        LinkedPreservesSymmetry(before, order, newId, record, sqrt);
      }
    }

    /** The linking pass: visits the nodes in insertion order and, for each
        other node within the edge radius, appends an edge to the new node's
        list and the mirrored edge to the other node's list. */
    method UpdateConnections(newId: int)
      requires Valid() && newId in checkpoints
      modifies this
      ensures Valid()
      ensures order == old(order) && lastCheckpointId == old(lastCheckpointId)
      ensures checkpoints == Linked(old(checkpoints), order, newId, sqrt)
    {
      // The dictionary is updated through a local name, as the loop only
      // rewrites values and never adds or removes a key.
      var cps := checkpoints;
      var newPos := cps[newId].position;
      var i := 0;
      LinkedNothing(checkpoints, newId, sqrt);
      while i < |order|
        invariant 0 <= i <= |order|
        invariant unchanged(this)
        invariant cps == Linked(checkpoints, order[..i], newId, sqrt)
      {
        var k := order[i];
        assert order[..i + 1] == order[..i] + [k];
        assert k !in order[..i];
        LinkedSnoc(checkpoints, order[..i], k, newId, sqrt);
        if k != newId {
          var other := cps[k];
          var d2 := SqDist(newPos, other.position);
          if d2 <= EdgeRadius * EdgeRadius {
            var distance := sqrt(d2);
            var created := cps[newId];
            cps := cps[newId := created.(connections := created.connections + [NewEdge(k, distance)])];
            cps := cps[k := other.(connections := other.connections + [NewEdge(newId, distance)])];
          }
        }
        i := i + 1;
      }
      assert order[..|order|] == order;
      checkpoints := cps;
    }

    /** The record stored under `id`, or None for an unknown id. */
    function GetCheckpoint(id: int): (r: Option<Checkpoint>)
      reads this
      ensures r.Some? <==> id in checkpoints
      ensures r.Some? ==> r.value == checkpoints[id]
    {
      if id in checkpoints then Some(checkpoints[id]) else None
    }

    /** The whole dictionary: exactly the live ids. */
    function GetAllCheckpoints(): (r: map<int, Checkpoint>)
      reads this
      requires Valid()
      ensures forall k :: k in r <==> k in order
      ensures forall k :: k in r ==> GetCheckpoint(k) == Some(r[k])
    {
      checkpoints
    }

    /** Shallow-merges `patch` into the record under `id`. */
    method UpdateCheckpoint(id: int, patch: CheckpointPatch) returns (ok: bool)
      requires Valid()
      modifies this
      ensures Valid()
      ensures ok == (id in old(checkpoints))
      ensures order == old(order) && lastCheckpointId == old(lastCheckpointId)
      ensures ok ==> checkpoints == old(checkpoints)[id := Merge(old(checkpoints)[id], patch)]
      ensures !ok ==> checkpoints == old(checkpoints)
      ensures old(GraphInvariant()) && patch.connections.None? ==> GraphInvariant()
    {
      if id in checkpoints {
        ghost var wasInvariant := GraphInvariant();
        ghost var before := checkpoints;
        checkpoints := checkpoints[id := Merge(checkpoints[id], patch)];
        if wasInvariant && patch.connections.None? {
          MergePreservesSymmetry(before, id, patch);
        }
        return true;
      }
      return false;
    }

    /** The stripping pass of a deletion: visits the nodes in insertion
        order and drops every edge to `id` from each node's list. */
    method StripEdgesTo(id: int)
      requires Valid()
      modifies this
      ensures Valid()
      ensures order == old(order) && lastCheckpointId == old(lastCheckpointId)
      ensures checkpoints == Stripped(old(checkpoints), order, id)
    {
      var cps := checkpoints;
      var i := 0;
      StrippedNothing(checkpoints, id);
      while i < |order|
        invariant 0 <= i <= |order|
        invariant unchanged(this)
        invariant cps == Stripped(checkpoints, order[..i], id)
      {
        var k := order[i];
        assert order[..i + 1] == order[..i] + [k];
        StrippedSnoc(checkpoints, order[..i], k, id);
        var cp := cps[k];
        cps := cps[k := cp.(connections := WithoutEdgesTo(cp.connections, id))];
        i := i + 1;
      }
      assert order[..|order|] == order;
      checkpoints := cps;
    }

    /** Removes the node `id`, first stripping every edge to it from every
        node's list. The id counter is left alone, so `id` is never issued
        again. */
    method DeleteCheckpoint(id: int) returns (ok: bool)
      requires Valid()
      modifies this
      ensures Valid()
      ensures ok == (id in old(checkpoints))
      ensures lastCheckpointId == old(lastCheckpointId)
      ensures ok ==> checkpoints == Pruned(old(checkpoints), id) && order == RemoveKey(old(order), id)
      ensures !ok ==> checkpoints == old(checkpoints) && order == old(order)
      ensures old(GraphInvariant()) ==> GraphInvariant()
    {
      if id !in checkpoints {
        return false;
      }
      ghost var wasInvariant := GraphInvariant();
      ghost var start := checkpoints;
      StripEdgesTo(id);
      StrippedThenRemoved(start, order, id);
      checkpoints := map k | k in checkpoints && k != id :: checkpoints[k];
      forall k ensures k in checkpoints <==> k in RemoveKey(order, id) {
        RemoveKeyMembership(order, id, k);
      }
      RemoveKeyDistinct(order, id);
      order := RemoveKey(order, id);
      if wasInvariant {
        PrunedPreservesSymmetry(start, id);
      }
      return true;
    }
  }

  /** The linking pass of the first node of a store creates no edge. */
  lemma LinkFirst(r1: Checkpoint, sqrt: real -> real)
    ensures Linked(map[1 := r1], [1], 1, sqrt) == map[1 := r1]
  {
    LinkedNothing(map[1 := r1], 1, sqrt);
    LinkedSnoc(map[1 := r1], [], 1, 1, sqrt);
  }

  /** A second node 2.0 m from the first is linked to it both ways; with a
      genuine square root both edges record 2.0. */
  lemma LinkSecond(r1: Checkpoint, r2: Checkpoint, sqrt: real -> real)
    requires r1.connections == [] && r2.connections == []
    requires r1.position == Vec3(0.0, 0.0, 0.0) && r2.position == Vec3(2.0, 0.0, 0.0)
    ensures Linked(map[1 := r1][2 := r2], [1, 2], 2, sqrt)
         == map[1 := r1.(connections := [NewEdge(2, sqrt(4.0))]), 2 := r2.(connections := [NewEdge(1, sqrt(4.0))])]
    ensures IsSquareRoot(sqrt) ==>
      && Linked(map[1 := r1][2 := r2], [1, 2], 2, sqrt)[1].connections == [NewEdge(2, 2.0)]
      && Linked(map[1 := r1][2 := r2], [1, 2], 2, sqrt)[2].connections == [NewEdge(1, 2.0)]
  {
    var m := map[1 := r1][2 := r2];
    var d := sqrt(4.0);
    LinkedNothing(m, 2, sqrt);
    LinkedSnoc(m, [], 1, 2, sqrt);
    assert SqDist(r2.position, r1.position) == 4.0;
    assert [] + [1] == [1];
    assert r1.connections + [NewEdge(2, d)] == [NewEdge(2, d)];
    assert r2.connections + [NewEdge(1, d)] == [NewEdge(1, d)];
    var l1 := Linked(m, [1], 2, sqrt);
    var goal := map[1 := r1.(connections := [NewEdge(2, d)]), 2 := r2.(connections := [NewEdge(1, d)])];
    assert l1 == m[2 := r2.(connections := [NewEdge(1, d)])][1 := r1.(connections := [NewEdge(2, d)])];
    assert l1 == goal by {
      assert l1.Keys == goal.Keys;
      assert l1[1] == goal[1] && l1[2] == goal[2];
    }
    LinkedSnoc(m, [1], 2, 2, sqrt);
    assert [1] + [2] == [1, 2];
    if IsSquareRoot(sqrt) {
      SquareRootOfSquare(sqrt, 2.0);
      assert 2.0 * 2.0 == 4.0;
    }
  }

  /** A third node 8.0 m and 10.0 m from the other two gets no edge. */
  lemma LinkThird(m: map<int, Checkpoint>, r3: Checkpoint, sqrt: real -> real)
    requires m.Keys == {1, 2}
    requires m[1].position == Vec3(0.0, 0.0, 0.0) && m[2].position == Vec3(2.0, 0.0, 0.0)
    requires r3.position == Vec3(10.0, 0.0, 0.0)
    ensures Linked(m[3 := r3], [1, 2, 3], 3, sqrt) == m[3 := r3]
  {
    var n := m[3 := r3];
    LinkedNothing(n, 3, sqrt);
    LinkedSnoc(n, [], 1, 3, sqrt);
    assert [] + [1] == [1];
    LinkedSnoc(n, [1], 2, 3, sqrt);
    assert [1] + [2] == [1, 2];
    LinkedSnoc(n, [1, 2], 3, 3, sqrt);
    assert [1, 2] + [3] == [1, 2, 3];
  }

  /** Deleting the newest node and inserting again issues a new id. */
  method DeleteThenInsert(sqrt: real -> real, sample: PassageSample, now: string)
    returns (first: int, deleted: bool, second: int)
    ensures first == 1 && deleted && second == 2
  {
    var store := new CheckpointManager(sqrt);
    first := store.AddCheckpoint(Vec3(0.0, 0.0, 0.0), sample, None, now);
    deleted := store.DeleteCheckpoint(first);
    second := store.AddCheckpoint(Vec3(0.0, 0.0, 0.0), sample, None, now);
  }
}
