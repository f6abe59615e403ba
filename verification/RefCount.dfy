/**
 Hand-written reference counts (include/doarr/expr_base.hpp, lines 14-95 and 102-126;
 runtime/expr_all.cpp, lines 80-82 and 199-259).

 Memory is explicit: a freed node and a destroyed handle are no longer in the maps, so every access is
 proved to touch only what is live. Handles are the `expr` objects, both those outside and those that
 are fields of nodes. Node numbers are given out in order of allocation and stand for addresses.
 */
module RefCount {
  import opened Wrappers

  type HandleId = nat
  type NodeId = nat

  /** A node's count and the handles it owns: its `expr` fields and the array it took over. */
  datatype Node = Node(refcount: nat, fields: seq<HandleId>)

  type Handles = map<HandleId, Option<NodeId>>
  type Nodes = map<NodeId, Node>

  /** The live handles that point to `n`, except those being destroyed or overwritten. */
  function RefsTo(hs: Handles, busy: set<HandleId>, n: NodeId): set<HandleId> {
    set h | h in hs && h !in busy && hs[h] == Some(n)
  }

  ghost predicate Owns(ns: Nodes, n: NodeId, h: HandleId) {
    n in ns && h in ns[n].fields
  }

  /** A handle that is not a field of any node. */
  ghost predicate Outside(ns: Nodes, h: HandleId) {
    forall n :: n in ns ==> !Owns(ns, n, h)
  }

  predicate Distinct(fields: seq<HandleId>) {
    forall i, j :: 0 <= i < j < |fields| ==> fields[i] != fields[j]
  }

  /** Fields are live handles, owned once, pointing to nodes older than their owner. */
  ghost predicate FieldsOk(ns: Nodes, hs: Handles) {
    && (forall n, h :: Owns(ns, n, h) ==> h in hs && (hs[h].Some? ==> hs[h].value < n))
    && (forall n :: n in ns ==> Distinct(ns[n].fields))
    && (forall m, n, h :: Owns(ns, m, h) && Owns(ns, n, h) ==> m == n)
  }

  /** Every count is exact, where `pending` holds the counted references that no handle holds. */
  ghost predicate CountsOk(ns: Nodes, hs: Handles, busy: set<HandleId>, pending: multiset<NodeId>) {
    && (forall n :: n in ns ==> ns[n].refcount == |RefsTo(hs, busy, n)| + pending[n] && ns[n].refcount > 0)
    && (forall h :: h in hs && h !in busy && hs[h].Some? ==> hs[h].value in ns)
    && (forall n :: n in pending ==> n in ns)
  }

  // ---------- single steps

  lemma TakeOut(ns: Nodes, hs: Handles, busy: set<HandleId>, pending: multiset<NodeId>, h: HandleId)
    requires CountsOk(ns, hs, busy, pending) && h in hs && h !in busy
    ensures CountsOk(ns, hs, busy + {h}, pending + PendingOf(hs[h]))
  {
    forall n | n in ns
      ensures ns[n].refcount == |RefsTo(hs, busy + {h}, n)| + (pending + PendingOf(hs[h]))[n]
    {
      if hs[h] == Some(n) {
        assert RefsTo(hs, busy, n) == RefsTo(hs, busy + {h}, n) + {h};
      } else {
        assert RefsTo(hs, busy, n) == RefsTo(hs, busy + {h}, n);
      }
    }
  }

  function PendingOf(impl: Option<NodeId>): multiset<NodeId> {
    match impl
    case None => multiset{}
    case Some(n) => multiset{n}
  }

  lemma PutBack(ns: Nodes, hs: Handles, busy: set<HandleId>, pending: multiset<NodeId>, h: HandleId,
                impl: Option<NodeId>)
    requires CountsOk(ns, hs, busy, pending + PendingOf(impl))
    requires h in busy || h !in hs
    ensures CountsOk(ns, hs[h := impl], busy - {h}, pending)
  {
    var hs' := hs[h := impl];
    if impl.Some? {
      assert impl.value in pending + PendingOf(impl);
    }
    forall n | n in ns
      ensures ns[n].refcount == |RefsTo(hs', busy - {h}, n)| + pending[n]
    {
      StoredRefs(hs, busy, h, impl, n);
    }
    forall n | n in pending
      ensures n in ns
    {
      assert n in pending + PendingOf(impl);
    }
  }

  lemma StoredRefs(hs: Handles, busy: set<HandleId>, h: HandleId, impl: Option<NodeId>, n: NodeId)
    requires h in busy || h !in hs
    ensures |RefsTo(hs[h := impl], busy - {h}, n)| == |RefsTo(hs, busy, n)| + PendingOf(impl)[n]
  {
    var before, after := RefsTo(hs, busy, n), RefsTo(hs[h := impl], busy - {h}, n);
    if impl == Some(n) {
      assert after == before + {h};
    } else {
      assert after == before;
    }
  }

  lemma Forget(ns: Nodes, hs: Handles, busy: set<HandleId>, pending: multiset<NodeId>, h: HandleId)
    requires CountsOk(ns, hs, busy, pending) && h in busy
    ensures CountsOk(ns, hs - {h}, busy - {h}, pending)
  {
    forall n | n in ns
      ensures RefsTo(hs - {h}, busy - {h}, n) == RefsTo(hs, busy, n)
    {
    }
  }

  lemma Recount(ns: Nodes, hs: Handles, busy: set<HandleId>, pending: multiset<NodeId>, n: NodeId, up: bool)
    requires CountsOk(ns, hs, busy, if up then pending else pending + multiset{n})
    requires n in ns && (!up ==> ns[n].refcount > 1)
    ensures
      var count := if up then ns[n].refcount + 1 else ns[n].refcount - 1;
      CountsOk(ns[n := ns[n].(refcount := count)], hs, busy, if up then pending + multiset{n} else pending)
  {
    forall m | m in pending
      ensures m in ns
    {
      assert m in pending + multiset{n};
    }
  }

  lemma Free(ns: Nodes, hs: Handles, busy: set<HandleId>, pending: multiset<NodeId>, n: NodeId)
    requires CountsOk(ns, hs, busy, pending + multiset{n}) && n in ns && ns[n].refcount == 1
    ensures CountsOk(ns - {n}, hs, busy, pending)
  {
    assert RefsTo(hs, busy, n) == {};
    forall h | h in hs && h !in busy && hs[h].Some?
      ensures hs[h].value in ns - {n}
    {
      assert hs[h].value == n ==> h in RefsTo(hs, busy, n);
    }
    forall m | m in pending
      ensures m in ns - {n}
    {
      assert m in pending + multiset{n};
      assert (pending + multiset{n})[n] == pending[n] + 1;
    }
  }

  ghost predicate OwnedUpTo(ns: Nodes, top: NodeId, h: HandleId) {
    exists n: NodeId :: n <= top && Owns(ns, n, h)
  }

  /** `b` comes from `a` by freeing nodes not newer than `top` along with their fields, and changing counts. */
  ghost predicate Shrinks(ans: Nodes, ahs: Handles, bns: Nodes, bhs: Handles, top: NodeId) {
    && (forall n :: n in bns ==> n in ans && bns[n].fields == ans[n].fields)
    && (forall n :: n in ans && n > top ==> n in bns && bns[n] == ans[n])
    && (forall h :: h in bhs ==> h in ahs && bhs[h] == ahs[h])
    && (forall h :: h in ahs && h !in bhs ==> OwnedUpTo(ans, top, h))
  }

  /** `b` comes from `a` by destroying some last fields of `n` and whatever goes with them. */
  ghost predicate Destroying(ans: Nodes, ahs: Handles, bns: Nodes, bhs: Handles, n: NodeId) {
    && n in ans && n in bns && bns[n].refcount == ans[n].refcount && bns[n].fields <= ans[n].fields
    && (forall m :: m in bns && m != n ==> m in ans && bns[m].fields == ans[m].fields)
    && (forall m :: m in ans && m > n ==> m in bns && bns[m] == ans[m])
    && (forall h :: h in bhs ==> h in ahs && bhs[h] == ahs[h])
    && (forall h :: h in ahs && h !in bhs ==> OwnedUpTo(ans, n, h))
  }

  lemma DestroyingOwns(ans: Nodes, ahs: Handles, bns: Nodes, bhs: Handles, n: NodeId)
    requires Destroying(ans, ahs, bns, bhs, n)
    ensures forall m, h :: Owns(bns, m, h) ==> Owns(ans, m, h)
  {
    assert forall h :: h in bns[n].fields ==> h in ans[n].fields;
  }

  lemma DestroyingTransitive(ans: Nodes, ahs: Handles, bns: Nodes, bhs: Handles, cns: Nodes, chs: Handles, n: NodeId)
    requires Destroying(ans, ahs, bns, bhs, n) && Destroying(bns, bhs, cns, chs, n)
    ensures Destroying(ans, ahs, cns, chs, n)
  {
    DestroyingOwns(ans, ahs, bns, bhs, n);
    forall h | h in ahs && h !in chs
      ensures OwnedUpTo(ans, n, h)
    {
      if h in bhs {
        var m: NodeId :| m <= n && Owns(bns, m, h);
      }
    }
  }

  /** A node that has lost all its fields goes. */
  lemma DestroyedAll(ans: Nodes, ahs: Handles, bns: Nodes, bhs: Handles, n: NodeId)
    requires Destroying(ans, ahs, bns, bhs, n) && bns[n].fields == [] && FieldsOk(bns, bhs)
    ensures Shrinks(ans, ahs, bns - {n}, bhs, n) && FieldsOk(bns - {n}, bhs)
  {
    assert forall m, x :: Owns(bns - {n}, m, x) ==> Owns(bns, m, x);
  }

  lemma IsLive(ns: Nodes, hs: Handles, h: HandleId)
    requires CountsOk(ns, hs, {}, multiset{}) && h in hs
    ensures hs[h].Some? ==> hs[h].value in ns
  {
  }

  /** A new handle is no field. */
  lemma NewHandle(ns: Nodes, hs: Handles, h: HandleId, impl: Option<NodeId>)
    requires FieldsOk(ns, hs) && h !in hs
    ensures FieldsOk(ns, hs[h := impl])
  {
  }

  /** The last field of a node under destruction goes. */
  lemma DropField(ns: Nodes, hs: Handles, busy: set<HandleId>, pending: multiset<NodeId>, n: NodeId, i: nat)
    requires FieldsOk(ns, hs) && n in ns && |ns[n].fields| == i + 1
    requires CountsOk(ns, hs, busy, pending) && ns[n].fields[i] in busy
    ensures
      var h := ns[n].fields[i];
      var ns', hs' := ns[n := ns[n].(fields := ns[n].fields[..i])], hs - {h};
      FieldsOk(ns', hs') && CountsOk(ns', hs', busy - {h}, pending)
  {
    var h := ns[n].fields[i];
    var ns', hs' := ns[n := ns[n].(fields := ns[n].fields[..i])], hs - {h};
    Forget(ns, hs, busy, pending, h);
    assert Owns(ns, n, h);
    forall m, x | Owns(ns', m, x)
      ensures Owns(ns, m, x) && x != h
    {
      if m == n {
        var j :| 0 <= j < i && ns[n].fields[..i][j] == x;
        assert ns[n].fields[j] != ns[n].fields[i];
      } else {
        assert Owns(ns, m, x);
      }
    }
    assert FieldsOk(ns', hs');
  }

  ghost predicate BusyAbove(ns: Nodes, busy: set<HandleId>, top: NodeId) {
    forall h :: h in busy ==> !OwnedUpTo(ns, top, h)
  }

  lemma BusyAboveChild(ns: Nodes, hs: Handles, busy: set<HandleId>, n: NodeId, h: HandleId)
    requires FieldsOk(ns, hs) && Owns(ns, n, h) && BusyAbove(ns, busy, n)
    ensures h !in busy
    ensures hs[h].Some? ==> BusyAbove(ns, busy + {h}, hs[h].value)
  {
    assert OwnedUpTo(ns, n, h);
    if hs[h].Some? {
      var c := hs[h].value;
      forall x | x in busy + {h}
        ensures !OwnedUpTo(ns, c, x)
      {
        if OwnedUpTo(ns, c, x) {
          var m: NodeId :| m <= c && Owns(ns, m, x);
          assert OwnedUpTo(ns, n, x);
        }
      }
    }
  }

  /** After the reference in the last field of `n` was given up, the field itself goes. */
  lemma FieldDestroyed(ns: Nodes, hs: Handles, bns: Nodes, bhs: Handles, n: NodeId, i: nat)
    requires FieldsOk(ns, hs) && n in ns && |ns[n].fields| == i + 1 && ns[n].fields[i] in hs
    requires var impl := hs[ns[n].fields[i]];
      if impl.Some? then Shrinks(ns, hs, bns, bhs, impl.value) else bns == ns && bhs == hs
    ensures ns[n].fields[i] in bhs && n in bns && bns[n] == ns[n]
    ensures Destroying(ns, hs, bns[n := bns[n].(fields := bns[n].fields[..i])], bhs - {ns[n].fields[i]}, n)
  {
    var h := ns[n].fields[i];
    assert Owns(ns, n, h) && OwnedUpTo(ns, n, h);
    if hs[h].Some? {
      forall x | x in hs && x !in bhs
        ensures OwnedUpTo(ns, n, x) && x != h
      {
        var m: NodeId :| m <= hs[h].value && Owns(ns, m, x);
      }
    }
  }

  // ---------- the heap

  class Heap {
    var nodes: Nodes
    var handles: Handles
    var nextNode: NodeId

    ghost predicate Consistent(busy: set<HandleId>, pending: multiset<NodeId>)
      reads this
    {
      && FieldsOk(nodes, handles)
      && CountsOk(nodes, handles, busy, pending)
      && (forall n :: n in nodes ==> n < nextNode)
    }

    ghost predicate Valid()
      reads this
    {
      Consistent({}, multiset{})
    }

    constructor ()
      ensures Valid() && nodes == map[] && handles == map[]
    {
      nodes, handles, nextNode := map[], map[], 0;
    }

    method Incref(impl: Option<NodeId>, ghost busy: set<HandleId>, ghost pending: multiset<NodeId>)
      requires Consistent(busy, pending) && (impl.Some? ==> impl.value in nodes)
      modifies `nodes
      ensures Consistent(busy, pending + PendingOf(impl))
      ensures nodes.Keys == old(nodes).Keys
      ensures forall n :: n in nodes ==> nodes[n].fields == old(nodes)[n].fields
    {
      if impl.Some? {
        var n := impl.value;
        Recount(nodes, handles, busy, pending, n, true);
        nodes := nodes[n := nodes[n].(refcount := nodes[n].refcount + 1)];
        assert forall m, h :: Owns(nodes, m, h) <==> Owns(old(nodes), m, h);
      } else {
        assert pending + multiset{} == pending;
      }
    }

    /** Gives up one reference to `impl`; the node goes when it was the last one. */
    method Decref(impl: Option<NodeId>, ghost busy: set<HandleId>, ghost pending: multiset<NodeId>)
      requires Consistent(busy, pending + PendingOf(impl))
      requires impl.Some? ==> BusyAbove(nodes, busy, impl.value)
      modifies `nodes, `handles
      ensures Consistent(busy, pending)
      ensures impl.None? ==> nodes == old(nodes) && handles == old(handles)
      ensures impl.Some? ==> Shrinks(old(nodes), old(handles), nodes, handles, impl.value)
      decreases if impl.Some? then impl.value + 1 else 0, 1
    {
      if impl.Some? {
        var n := impl.value;
        assert n in pending + PendingOf(impl);
        if nodes[n].refcount == 1 {
          Del(n, busy, pending);
        } else {
          Recount(nodes, handles, busy, pending, n, false);
          nodes := nodes[n := nodes[n].(refcount := nodes[n].refcount - 1)];
          assert forall m, h :: Owns(nodes, m, h) <==> Owns(old(nodes), m, h);
        }
      } else {
        assert pending + multiset{} == pending;
      }
    }

    /** Destroys the fields of a node, last first, and frees it. */
    method Del(n: NodeId, ghost busy: set<HandleId>, ghost pending: multiset<NodeId>)
      requires Consistent(busy, pending + multiset{n})
      requires n in nodes && nodes[n].refcount == 1
      requires BusyAbove(nodes, busy, n)
      modifies `nodes, `handles
      ensures Consistent(busy, pending)
      ensures Shrinks(old(nodes), old(handles), nodes, handles, n)
      decreases n + 1, 0, 1
    {
      ghost var ns, hs := nodes, handles;
      var i: nat := |nodes[n].fields|;
      while i > 0
        invariant Consistent(busy, pending + multiset{n})
        invariant Destroying(ns, hs, nodes, handles, n)
        invariant i == |nodes[n].fields|
      {
        i := i - 1;
        ghost var ns1, hs1 := nodes, handles;
        DestroyingOwns(ns, hs, nodes, handles, n);
        DestroyLastField(n, busy, pending + multiset{n});
        DestroyingTransitive(ns, hs, ns1, hs1, nodes, handles, n);
      }
      Free(nodes, handles, busy, pending, n);
      DestroyedAll(ns, hs, nodes, handles, n);
      hide Destroying, Shrinks, CountsOk, FieldsOk, BusyAbove;
      nodes := nodes - {n};
    }

    method DestroyLastField(n: NodeId, ghost busy: set<HandleId>, ghost pending: multiset<NodeId>)
      requires Consistent(busy, pending)
      requires n in nodes && nodes[n].fields != []
      requires BusyAbove(nodes, busy, n)
      modifies `nodes, `handles
      ensures Consistent(busy, pending)
      ensures Destroying(old(nodes), old(handles), nodes, handles, n)
      ensures |nodes[n].fields| == |old(nodes)[n].fields| - 1
      decreases n + 1, 0, 0
    {
      ghost var ns, hs := nodes, handles;
      var i := |nodes[n].fields| - 1;
      var h := nodes[n].fields[i];
      assert Owns(ns, n, h);
      BusyAboveChild(ns, hs, busy, n, h);
      TakeOut(nodes, handles, busy, pending, h);
      Decref(handles[h], busy + {h}, pending);
      FieldDestroyed(ns, hs, nodes, handles, n, i);
      DropField(nodes, handles, busy + {h}, pending, n, i);
      assert busy + {h} - {h} == busy;
      handles := handles - {h};
      nodes := nodes[n := nodes[n].(fields := nodes[n].fields[..i])];
    }

    // ---------- construction

    /**
     A new node that takes over handle objects as its fields, and a handle that points to it. Dynamic values
     and raw atoms are nodes without fields.
     */
    method NewNode(h: HandleId, fields: seq<HandleId>)
      requires Valid() && h !in handles && Distinct(fields)
      requires forall f :: f in fields ==> f in handles && Outside(nodes, f)
      modifies this
      ensures Valid()
      ensures handles == old(handles)[h := Some(old(nextNode))]
      ensures nodes == old(nodes)[old(nextNode) := Node(1, fields)]
      ensures nextNode == old(nextNode) + 1
    {
      var n := nextNode;
      NodeAllocated(nodes, handles, n, fields);
      nodes := nodes[n := Node(1, fields)];
      nextNode := nextNode + 1;
      PutBack(nodes, handles, {}, multiset{}, h, Some(n));
      handles := handles[h := Some(n)];
      assert {} - {h} == {};
    }

    method CopyConstruct(h: HandleId, src: HandleId)
      requires Valid() && h !in handles && src in handles
      modifies `nodes, `handles
      ensures Valid()
      ensures handles == old(handles)[h := old(handles)[src]]
      ensures nodes.Keys == old(nodes).Keys
      ensures forall n :: n in nodes ==> nodes[n].fields == old(nodes)[n].fields
    {
      var impl := handles[src];
      IsLive(nodes, handles, src);
      Incref(impl, {}, multiset{});
      PutBack(nodes, handles, {}, multiset{}, h, impl);
      NewHandle(nodes, handles, h, impl);
      hide FieldsOk, CountsOk;
      handles := handles[h := impl];
      assert {} - {h} == {};
    }

    method MoveConstruct(h: HandleId, src: HandleId)
      requires Valid() && h !in handles && src in handles && Outside(nodes, src)
      modifies `handles
      ensures Valid()
      ensures handles == old(handles)[h := old(handles)[src]][src := None]
    {
      hide CountsOk, FieldsOk;
      OldFields(nodes, handles, h);
      MoveCounts(nodes, handles, h, src);
      SameTargets(nodes, handles, h, handles[src]);
      SameTargets(nodes, handles[h := handles[src]], src, None);
      var impl := handles[src];
      handles := handles[h := impl];
      handles := handles[src := None];
    }

    /** The first field of a call node is copied or moved from `fn`; the argument handles are taken over. */
    method CallExpr(h: HandleId, f: HandleId, fn: HandleId, moveFn: bool, args: seq<HandleId>)
      requires Valid() && h !in handles && f !in handles && h != f && Distinct(args)
      requires fn in handles && (moveFn ==> Outside(nodes, fn)) && fn !in args
      requires forall a :: a in args ==> a in handles && Outside(nodes, a)
      modifies this
      ensures Valid()
      ensures nodes.Keys == old(nodes).Keys + {old(nextNode)}
      ensures nodes[old(nextNode)] == Node(1, [f] + args)
      ensures handles == Forwarded(old(handles), f, fn, moveFn)[h := Some(old(nextNode))]
    {
      hide CountsOk, FieldsOk;
      ghost var ns := nodes;
      OldFields(nodes, handles, f);
      Forward(f, fn, moveFn);
      SameFields(ns, nodes);
      NewNode(h, [f] + args);
    }

    /** The handles after an operand was copied or moved from `src` into the new handle `f`. */
    static function Forwarded(hs: Handles, f: HandleId, src: HandleId, move: bool): Handles
      requires src in hs
    {
      if move then hs[f := hs[src]][src := None] else hs[f := hs[src]]
    }

    method Forward(f: HandleId, src: HandleId, move: bool)
      requires Valid() && f !in handles && src in handles && (move ==> Outside(nodes, src))
      modifies `nodes, `handles
      ensures Valid() && handles == Forwarded(old(handles), f, src, move)
      ensures nodes.Keys == old(nodes).Keys
      ensures forall n :: n in nodes ==> nodes[n].fields == old(nodes)[n].fields
    {
      if move {
        MoveConstruct(f, src);
      } else {
        CopyConstruct(f, src);
      }
    }

    /** Both operands are copied or moved; moving one handle twice leaves the right operand null. */
    method InfixExpr(h: HandleId, f: HandleId, g: HandleId,
                     left: HandleId, moveLeft: bool, right: HandleId, moveRight: bool)
      requires Valid() && h !in handles && f !in handles && g !in handles && h != f && h != g && f != g
      requires left in handles && (moveLeft ==> Outside(nodes, left))
      requires right in handles && (moveRight ==> Outside(nodes, right))
      modifies this
      ensures Valid()
      ensures nodes.Keys == old(nodes).Keys + {old(nextNode)}
      ensures nodes[old(nextNode)] == Node(1, [f, g])
      ensures handles == Forwarded(Forwarded(old(handles), f, left, moveLeft), g, right, moveRight)
                           [h := Some(old(nextNode))]
    {
      hide CountsOk, FieldsOk;
      ghost var ns := nodes;
      OldFields(nodes, handles, f);
      OldFields(nodes, handles, g);
      Forward(f, left, moveLeft);
      SameFields(ns, nodes);
      Forward(g, right, moveRight);
      SameFields(ns, nodes);
      NewNode(h, [f, g]);
    }

    // ---------- assignment and destruction

    /** Gives up the reference of a handle that is about to be overwritten or destroyed. */
    method Release(h: HandleId, ghost pending: multiset<NodeId>)
      requires Consistent({}, pending) && h in handles && Outside(nodes, h)
      modifies `nodes, `handles
      ensures Consistent({h}, pending)
      ensures OthersKept(old(nodes), old(handles), nodes, handles, {})
      ensures forall x :: Outside(old(nodes), x) ==> Outside(nodes, x)
    {
      hide CountsOk, FieldsOk;
      ghost var ns, hs := nodes, handles;
      TakeOutFirst(nodes, handles, pending, h);
      BusyOutside(nodes, h);
      Decref(handles[h], {h}, pending);
      OutsideSurvives(ns, hs, nodes, handles, hs[h]);
    }

    method CopyAssign(dst: HandleId, src: HandleId)
      requires Valid() && dst in handles && src in handles && Outside(nodes, dst) && Outside(nodes, src)
      modifies `nodes, `handles
      ensures Valid()
      ensures OthersKept(old(nodes), old(handles), nodes, handles, {dst})
      ensures dst in handles && handles[dst] == old(handles)[src]
    {
      hide CountsOk, FieldsOk;
      ghost var ns := nodes;
      LiveTarget(nodes, handles, src);
      Incref(handles[src], {}, multiset{});
      SameFields(ns, nodes);
      assert multiset{} + PendingOf(handles[src]) == PendingOf(handles[src]);
      Release(dst, PendingOf(handles[src]));
      PutBackLast(nodes, handles, {dst}, dst, handles[src]);
      SameTargets(nodes, handles, dst, handles[src]);
      handles := handles[dst := handles[src]];
    }

    method MoveAssign(dst: HandleId, src: HandleId)
      requires Valid() && dst in handles && src in handles && Outside(nodes, dst) && Outside(nodes, src)
      modifies `nodes, `handles
      ensures Valid()
      ensures OthersKept(old(nodes), old(handles), nodes, handles, {dst, src})
      ensures src in handles && handles[src] == None
      ensures dst in handles && dst != src ==> handles[dst] == old(handles)[src]
    {
      hide CountsOk, FieldsOk;
      Release(dst, multiset{});
      var impl := handles[src];
      MovedCounts(nodes, handles, dst, src);
      SameTargets(nodes, handles, dst, impl);
      SameTargets(nodes, handles[dst := impl], src, None);
      handles := handles[dst := impl];
      handles := handles[src := None];
    }

    /** The destructor of a handle that is not a field. */
    method Destroy(h: HandleId)
      requires Valid() && h in handles && Outside(nodes, h)
      modifies `nodes, `handles
      ensures Valid()
      ensures OthersKept(old(nodes), old(handles), nodes, handles, {h})
      ensures h !in handles
    {
      hide CountsOk;
      Release(h, multiset{});
      Forget(nodes, handles, {h}, multiset{}, h);
      assert {h} - {h} == {};
      assert FieldsOk(nodes, handles - {h});
      handles := handles - {h};
    }
  }

  lemma SameFields(ans: Nodes, bns: Nodes)
    requires ans.Keys == bns.Keys && forall n :: n in ans ==> bns[n].fields == ans[n].fields
    ensures forall n, h :: Owns(bns, n, h) <==> Owns(ans, n, h)
    ensures forall h :: Outside(bns, h) <==> Outside(ans, h)
  {
  }

  lemma LiveTarget(ns: Nodes, hs: Handles, h: HandleId)
    requires CountsOk(ns, hs, {}, multiset{}) && h in hs
    ensures hs[h].Some? ==> hs[h].value in ns
  {
  }

  lemma TakeOutFirst(ns: Nodes, hs: Handles, pending: multiset<NodeId>, h: HandleId)
    requires CountsOk(ns, hs, {}, pending) && h in hs
    ensures CountsOk(ns, hs, {h}, pending + PendingOf(hs[h]))
  {
    hide CountsOk;
    TakeOut(ns, hs, {}, pending, h);
    assert {} + {h} == {h};
  }

  /** A handle outside the nodes may point anywhere. */
  lemma SameTargets(ns: Nodes, hs: Handles, h: HandleId, impl: Option<NodeId>)
    requires FieldsOk(ns, hs) && Outside(ns, h)
    ensures FieldsOk(ns, hs[h := impl])
  {
  }

  lemma PutBackLast(ns: Nodes, hs: Handles, busy: set<HandleId>, h: HandleId, impl: Option<NodeId>)
    requires CountsOk(ns, hs, busy, PendingOf(impl))
    requires busy == {h} || (busy == {} && h !in hs)
    ensures CountsOk(ns, hs[h := impl], {}, multiset{})
  {
    hide CountsOk;
    assert multiset{} + PendingOf(impl) == PendingOf(impl);
    PutBack(ns, hs, busy, multiset{}, h, impl);
    assert busy - {h} == {};
  }

  lemma MoveCounts(ns: Nodes, hs: Handles, h: HandleId, src: HandleId)
    requires CountsOk(ns, hs, {}, multiset{}) && src in hs && h !in hs
    ensures CountsOk(ns, hs[h := hs[src]][src := None], {}, multiset{})
  {
    hide CountsOk;
    TakeOutFirst(ns, hs, multiset{}, src);
    assert multiset{} + PendingOf(hs[src]) == PendingOf(hs[src]) && {src} - {src} == {};
    NullOut(ns, hs, {src}, PendingOf(hs[src]), src);
    PutBackLast(ns, hs[src := None], {}, h, hs[src]);
    assert hs[src := None][h := hs[src]] == hs[h := hs[src]][src := None];
  }

  /** Moving between handles, the same one included, after the target gave up its reference. */
  lemma MovedCounts(ns: Nodes, hs: Handles, dst: HandleId, src: HandleId)
    requires CountsOk(ns, hs, {dst}, multiset{}) && dst in hs && src in hs
    ensures CountsOk(ns, hs[dst := hs[src]][src := None], {}, multiset{})
  {
    hide CountsOk;
    var impl := hs[src];
    assert {dst} - {dst} == {};
    if dst == src {
      NullOut(ns, hs, {dst}, multiset{}, dst);
      assert hs[dst := impl][dst := None] == hs[dst := None];
    } else {
      TakeOut(ns, hs, {dst}, multiset{}, src);
      assert multiset{} + PendingOf(impl) == PendingOf(impl);
      NullOut(ns, hs, {dst} + {src}, PendingOf(impl), src);
      assert {dst} + {src} - {src} == {dst};
      PutBackLast(ns, hs[src := None], {dst}, dst, impl);
      assert hs[src := None][dst := impl] == hs[dst := impl][src := None];
    }
  }

  /** Nodes only go, surviving ones keep their fields, and no outside handle but the given ones changes. */
  ghost predicate OthersKept(ans: Nodes, ahs: Handles, bns: Nodes, bhs: Handles, changed: set<HandleId>) {
    && (forall n :: n in bns ==> n in ans && bns[n].fields == ans[n].fields)
    && (forall h :: h in bhs ==> h in ahs)
    && (forall h :: h in ahs && h !in changed && Outside(ans, h) ==> h in bhs)
    && (forall h :: h in bhs && h !in changed ==> bhs[h] == ahs[h])
  }

  lemma OutsideSurvives(ans: Nodes, ahs: Handles, bns: Nodes, bhs: Handles, impl: Option<NodeId>)
    requires if impl.Some? then Shrinks(ans, ahs, bns, bhs, impl.value) else bns == ans && bhs == ahs
    ensures OthersKept(ans, ahs, bns, bhs, {})
    ensures forall h :: Outside(ans, h) ==> Outside(bns, h)
    ensures forall h :: Outside(ans, h) && h in ahs ==> h in bhs
  {
    assert forall n, h :: Owns(bns, n, h) ==> Owns(ans, n, h);
    if impl.Some? {
      forall h | h in ahs && Outside(ans, h)
        ensures h in bhs
      {
        assert !OwnedUpTo(ans, impl.value, h);
      }
    }
  }

  lemma BusyOutside(ns: Nodes, h: HandleId)
    requires Outside(ns, h)
    ensures forall top :: BusyAbove(ns, {h}, top)
  {
  }

  lemma NullOut(ns: Nodes, hs: Handles, busy: set<HandleId>, pending: multiset<NodeId>, h: HandleId)
    requires CountsOk(ns, hs, busy, pending) && h in busy && h in hs
    ensures CountsOk(ns, hs[h := None], busy - {h}, pending)
  {
    hide CountsOk;
    assert pending + PendingOf(None) == pending;
    PutBack(ns, hs, busy, pending, h, None);
  }

  lemma OldFields(ns: Nodes, hs: Handles, f: HandleId)
    requires FieldsOk(ns, hs) && f !in hs
    ensures Outside(ns, f)
  {
  }

  lemma NodeAllocated(ns: Nodes, hs: Handles, n: NodeId, fields: seq<HandleId>)
    requires FieldsOk(ns, hs) && CountsOk(ns, hs, {}, multiset{}) && Distinct(fields)
    requires forall m :: m in ns ==> m < n
    requires forall f :: f in fields ==> f in hs && Outside(ns, f)
    ensures FieldsOk(ns[n := Node(1, fields)], hs)
    ensures CountsOk(ns[n := Node(1, fields)], hs, {}, multiset{n})
  {
    var ns' := ns[n := Node(1, fields)];
    assert RefsTo(hs, {}, n) == {} by {
      assert forall h :: h in hs && hs[h].Some? ==> hs[h].value in ns;
    }
    forall m, h | Owns(ns', m, h)
      ensures if m == n then h in fields else Owns(ns, m, h)
    {
    }
    assert forall m, h :: Owns(ns, m, h) ==> h !in fields;
  }

  // ---------- what exact counts mean

  /** A node that some outside handle points to, directly or through the fields of newer nodes. */
  ghost predicate Reachable(ns: Nodes, hs: Handles, n: NodeId, top: NodeId)
    decreases top - n
  {
    && n < top
    && exists h :: h in hs && hs[h] == Some(n) &&
         (Outside(ns, h) || exists m: NodeId :: n < m && Owns(ns, m, h) && Reachable(ns, hs, m, top))
  }

  lemma {:induction false} LiveIsReachable(ns: Nodes, hs: Handles, n: NodeId, top: NodeId)
    requires FieldsOk(ns, hs) && CountsOk(ns, hs, {}, multiset{})
    requires n in ns && forall m :: m in ns ==> m < top
    ensures Reachable(ns, hs, n, top)
    decreases top - n
  {
    var refs := RefsTo(hs, {}, n);
    assert refs != {};
    var h :| h in refs;
    if !Outside(ns, h) {
      var m :| m in ns && Owns(ns, m, h);
      LiveIsReachable(ns, hs, m, top);
    }
  }

  /** The live nodes are exactly those that can still be reached: nothing leaks, nothing dangles. */
  lemma LiveIffReachable(ns: Nodes, hs: Handles, n: NodeId, top: NodeId)
    requires FieldsOk(ns, hs) && CountsOk(ns, hs, {}, multiset{})
    requires forall m :: m in ns ==> m < top
    ensures n in ns <==> Reachable(ns, hs, n, top)
  {
    if n in ns {
      LiveIsReachable(ns, hs, n, top);
    }
  }

  /** When no outside handle points anywhere, every node has been freed. */
  lemma NoLeak(ns: Nodes, hs: Handles, top: NodeId)
    requires FieldsOk(ns, hs) && CountsOk(ns, hs, {}, multiset{})
    requires forall m :: m in ns ==> m < top
    requires forall h :: h in hs && Outside(ns, h) ==> hs[h] == None
    ensures ns == map[]
  {
    if ns != map[] {
      var n :| n in ns;
      LiveIsReachable(ns, hs, n, top);
      NoneReachable(ns, hs, n, top);
      assert false;
    }
  }

  lemma {:induction false} NoneReachable(ns: Nodes, hs: Handles, n: NodeId, top: NodeId)
    requires forall h :: h in hs && Outside(ns, h) ==> hs[h] == None
    ensures !Reachable(ns, hs, n, top)
    decreases top - n
  {
    if Reachable(ns, hs, n, top) {
      var h :| h in hs && hs[h] == Some(n) &&
        (Outside(ns, h) || exists m: NodeId :: n < m && Owns(ns, m, h) && Reachable(ns, hs, m, top));
      var m: NodeId :| n < m && Owns(ns, m, h) && Reachable(ns, hs, m, top);
      NoneReachable(ns, hs, m, top);
      assert false;
    }
  }
}
