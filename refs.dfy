/**
  React refs and `composeRefs`, which fans one mounted node out to several refs:
  every function ref is called with the node (and what it returns, if a function, is
  kept as a cleanup), every object ref gets the node in `current`, absent refs are
  skipped, and a combined cleanup comes back only when some cleanup was kept. A ref
  that an earlier `composeRefs` returned is a function ref too, and runs its own refs.
 */
module Refs {
  import opened Wrappers

  /** A mounted element, known by its identity. */
  type ElemId = nat

  /** What React hands a ref: an element, or null. */
  type Node = Option<ElemId>

  /** A ref object, as `createRef()` makes it: a `current` cell that starts out empty. */
  class Cell {
    var current: Node

    constructor ()
      ensures current == None
    {
      current := None;
    }
  }

  /**
    `React.Ref`: an object ref; a callback ref, which is code outside the model and is
    known here only by an identity; or the callback an earlier `composeRefs` returned,
    as when one hook's props are handed to another hook's `getKeydownProps`.
   */
  datatype Ref = ObjectRef(cell: Cell) | CallbackRef(id: nat) | ComposedCallback(composed: ComposedRef)

  /** The callback `composeRefs(...refs)` returns; absent refs are `None`. */
  datatype ComposedRef = ComposedRef(refs: seq<Option<Ref>>)

  /**
    A cleanup function a ref callback returned: one a foreign callback returned, known
    by an identity, or the combined cleanup of a composed ref.
   */
  datatype Cleanup = ForeignCleanup(id: nat) | CombinedCleanup(parts: seq<Cleanup>)

  /** `typeof ref === 'function'`: a callback ref or a composed ref. */
  predicate IsCallback(r: Option<Ref>)
  {
    r.Some? && (r.value.CallbackRef? || r.value.ComposedCallback?)
  }

  predicate IsObject(r: Option<Ref>)
  {
    r.Some? && r.value.ObjectRef?
  }

  /** The argument positions of the function refs, in argument order: whom the loop calls. */
  function CallbackPositions(refs: seq<Option<Ref>>): seq<nat>
  {
    if refs == [] then []
    else
      var n := |refs| - 1;
      CallbackPositions(refs[..n]) + (if IsCallback(refs[n]) then [n] else [])
  }

  /** The positions called are exactly the function refs' positions, in increasing order. */
  lemma {:induction false} CallbackPositionsExact(refs: seq<Option<Ref>>)
    ensures forall k :: 0 <= k < |CallbackPositions(refs)| ==>
      CallbackPositions(refs)[k] < |refs| && IsCallback(refs[CallbackPositions(refs)[k]])
    ensures forall i :: 0 <= i < |refs| && IsCallback(refs[i]) ==> i in CallbackPositions(refs)
    ensures forall k, l :: 0 <= k < l < |CallbackPositions(refs)| ==>
      CallbackPositions(refs)[k] < CallbackPositions(refs)[l]
  {
    if refs != [] {
      var n := |refs| - 1;
      var prefix := refs[..n];
      CallbackPositionsExact(prefix);
      assert forall i :: 0 <= i < n ==> prefix[i] == refs[i];
      var front := CallbackPositions(prefix);
      var ps := CallbackPositions(refs);
      assert ps == front + (if IsCallback(refs[n]) then [n] else []);
      assert forall k :: 0 <= k < |front| ==> front[k] < n && IsCallback(refs[front[k]]);
    }
  }

  /** The foreign callbacks one argument leads to, in the order they are called. */
  function RefCalls(r: Option<Ref>): seq<nat>
  {
    match r
    case Some(CallbackRef(id)) => [id]
    case Some(ComposedCallback(c)) => ForeignCalls(c.refs)
    case _ => []
  }

  /** The foreign callbacks a call of the composed ref runs, depth first in argument order. */
  function ForeignCalls(refs: seq<Option<Ref>>): seq<nat>
  {
    if refs == [] then []
    else
      var n := |refs| - 1;
      ForeignCalls(refs[..n]) + RefCalls(refs[n])
  }

  /**
    The cleanups the foreign callbacks `ids` return when called with `node`, in call
    order. `reply(id, node)` stands for the foreign callback `id`: the cleanup it returns,
    or None.
   */
  function Replies(ids: seq<nat>, node: Node, reply: (nat, Node) -> Option<nat>): seq<nat>
  {
    if ids == [] then []
    else
      var n := |ids| - 1;
      Replies(ids[..n], node, reply) + (if reply(ids[n], node).Some? then [reply(ids[n], node).value] else [])
  }

  /** What calling one argument with `node` returns, if it is a function. */
  function RefCleanup(r: Option<Ref>, node: Node, reply: (nat, Node) -> Option<nat>): Option<Cleanup>
  {
    match r
    case Some(CallbackRef(id)) => if reply(id, node).Some? then Some(ForeignCleanup(reply(id, node).value)) else None
    case Some(ComposedCallback(c)) =>
      var kept := Collected(c.refs, node, reply);
      if kept == [] then None else Some(CombinedCleanup(kept))
    case _ => None
  }

  /** The cleanups the loop keeps: for each function ref in argument order, what it returns, if a function. */
  function Collected(refs: seq<Option<Ref>>, node: Node, reply: (nat, Node) -> Option<nat>): seq<Cleanup>
  {
    if refs == [] then []
    else
      var n := |refs| - 1;
      Collected(refs[..n], node, reply)
        + (if RefCleanup(refs[n], node, reply).Some? then [RefCleanup(refs[n], node, reply).value] else [])
  }

  /** What the composed ref returns when called with `node`: the combined cleanup, if one was kept. */
  function ComposedReply(refs: seq<Option<Ref>>, node: Node, reply: (nat, Node) -> Option<nat>): Option<Cleanup>
  {
    var kept := Collected(refs, node, reply);
    if kept == [] then None else Some(CombinedCleanup(kept))
  }

  /** The foreign cleanups that running `c` calls, in order. */
  function CleanupRuns(c: Cleanup): seq<nat>
  {
    match c
    case ForeignCleanup(id) => [id]
    case CombinedCleanup(parts) => RunsAll(parts)
  }

  /** The foreign cleanups that running each of `parts` in turn calls. */
  function RunsAll(parts: seq<Cleanup>): seq<nat>
  {
    if parts == [] then []
    else
      var n := |parts| - 1;
      RunsAll(parts[..n]) + CleanupRuns(parts[n])
  }

  /** The cells one argument leads to: its own, or those of the refs it composes. */
  function RefCells(r: Option<Ref>): set<Cell>
  {
    match r
    case Some(ObjectRef(cell)) => {cell}
    case Some(ComposedCallback(c)) => ObjectCells(c.refs)
    case _ => {}
  }

  /** The cells of the object refs, at any depth: the ones that get `current = node`. */
  function ObjectCells(refs: seq<Option<Ref>>): set<Cell>
  {
    if refs == [] then {}
    else
      var n := |refs| - 1;
      ObjectCells(refs[..n]) + RefCells(refs[n])
  }

  /** A cell is assigned exactly when some argument leads to it. */
  lemma {:induction false} ObjectCellsExact(refs: seq<Option<Ref>>)
    ensures forall i :: 0 <= i < |refs| ==> RefCells(refs[i]) <= ObjectCells(refs)
    ensures forall c :: c in ObjectCells(refs) ==> exists i :: 0 <= i < |refs| && c in RefCells(refs[i])
  {
    if refs != [] {
      var n := |refs| - 1;
      ObjectCellsExact(refs[..n]);
      assert forall i :: 0 <= i < n ==> refs[..n][i] == refs[i];
    }
  }

  /** The cells an argument leads to exist: they are reachable from it. */
  lemma {:induction false} RefCellsAllocated(r: Option<Ref>)
    ensures forall cell :: cell in RefCells(r) ==> allocated(cell)
    decreases r, 0
  {
    if r.Some? && r.value.ComposedCallback? {
      CellsAllocated(r.value.composed.refs);
    }
  }

  lemma {:induction false} CellsAllocated(refs: seq<Option<Ref>>)
    ensures forall cell :: cell in ObjectCells(refs) ==> allocated(cell)
    decreases refs, 1
  {
    ObjectCellsExact(refs);
    forall cell | cell in ObjectCells(refs)
      ensures allocated(cell)
    {
      var i :| 0 <= i < |refs| && cell in RefCells(refs[i]);
      assert refs[i] in refs;
      RefCellsAllocated(refs[i]);
    }
  }

  /** What one more loop iteration adds to calls, kept cleanups and assigned cells. */
  lemma PrefixStep(refs: seq<Option<Ref>>, i: nat, node: Node, reply: (nat, Node) -> Option<nat>)
    requires i < |refs|
    ensures CallbackPositions(refs[..i + 1]) ==
      CallbackPositions(refs[..i]) + (if IsCallback(refs[i]) then [i] else [])
    ensures ForeignCalls(refs[..i + 1]) == ForeignCalls(refs[..i]) + RefCalls(refs[i])
    ensures Collected(refs[..i + 1], node, reply) == Collected(refs[..i], node, reply)
      + (if RefCleanup(refs[i], node, reply).Some? then [RefCleanup(refs[i], node, reply).value] else [])
    ensures ObjectCells(refs[..i + 1]) == ObjectCells(refs[..i]) + RefCells(refs[i])
  {
    assert refs[..i + 1][..i] == refs[..i];
  }

  /**
    One pass of the loop: an absent ref is skipped; a function ref is called with `node`
    (a composed one runs its own refs in turn) and what it returns is kept if it is a
    function; an object ref gets `current = node`.
   */
  method InvokeArg(r: Option<Ref>, node: Node, reply: (nat, Node) -> Option<nat>)
    returns (called: bool, foreign: seq<nat>, cleanup: Option<Cleanup>)
    modifies RefCells(r)
    decreases r, 0
    ensures called == IsCallback(r)
    ensures foreign == RefCalls(r)
    ensures cleanup == RefCleanup(r, node, reply)
    ensures forall cell :: cell in RefCells(r) ==> cell.current == node
  {
    called, foreign, cleanup := false, [], None;
    if r.None? {
      return;
    }
    match r.value
    case CallbackRef(id) =>
      called, foreign := true, [id];
      var returned := reply(id, node);
      if returned.Some? {
        cleanup := Some(ForeignCleanup(returned.value));
      }
    case ComposedCallback(inner) =>
      var innerCalls;
      called := true;
      innerCalls, foreign, cleanup := InvokeComposed(inner, node, reply);
    case ObjectRef(cell) =>
      cell.current := node;
  }

  /**
    Calling the composed ref with `node`: the function refs are called in argument
    order, the object refs' cells are set to `node`, and the kept cleanups are returned
    combined, or nothing when none was kept. No other cell changes.
   */
  method InvokeComposed(c: ComposedRef, node: Node, reply: (nat, Node) -> Option<nat>)
    returns (calls: seq<nat>, foreign: seq<nat>, cleanup: Option<Cleanup>)
    modifies ObjectCells(c.refs)
    decreases c, 1
    ensures calls == CallbackPositions(c.refs)
    ensures foreign == ForeignCalls(c.refs)
    ensures cleanup == ComposedReply(c.refs, node, reply)
    ensures forall cell :: cell in ObjectCells(c.refs) ==> cell.current == node
  {
    var refs := c.refs;
    ObjectCellsExact(refs);
    var cleanups: seq<Cleanup> := [];
    calls, foreign := [], [];
    for i := 0 to |refs|
      invariant calls == CallbackPositions(refs[..i])
      invariant foreign == ForeignCalls(refs[..i])
      invariant cleanups == Collected(refs[..i], node, reply)
      invariant forall cell :: cell in ObjectCells(refs[..i]) ==> cell.current == node
    {
      PrefixStep(refs, i, node, reply);
      CellsAllocated(refs[..i]);
      assert refs[i] in refs;
      var called, argForeign, returned := InvokeArg(refs[i], node, reply);
      if called {
        calls := calls + [i];
      }
      foreign := foreign + argForeign;
      if returned.Some? {
        cleanups := cleanups + [returned.value];
      }
    }
    assert refs[..|refs|] == refs;
    if |cleanups| != 0 {
      cleanup := Some(CombinedCleanup(cleanups));
    } else {
      cleanup := None;
    }
  }

  /** Running a cleanup: a foreign one is called; a combined one runs its parts once each, in order. */
  method RunCleanup(cleanup: Cleanup) returns (ran: seq<nat>)
    decreases cleanup
    ensures ran == CleanupRuns(cleanup)
  {
    match cleanup
    case ForeignCleanup(id) =>
      ran := [id];
    case CombinedCleanup(parts) =>
      ran := [];
      for i := 0 to |parts|
        invariant ran == RunsAll(parts[..i])
      {
        assert parts[..i + 1][..i] == parts[..i];
        assert parts[i] in parts;
        var r := RunCleanup(parts[i]);
        ran := ran + r;
      }
      assert parts[..|parts|] == parts;
  }

  lemma {:induction false} RepliesAppend(a: seq<nat>, b: seq<nat>, node: Node, reply: (nat, Node) -> Option<nat>)
    ensures Replies(a + b, node, reply) == Replies(a, node, reply) + Replies(b, node, reply)
    decreases |b|
  {
    if b == [] {
      assert a + b == a;
    } else {
      var n := |b| - 1;
      assert (a + b)[..|a| + n] == a + b[..n];
      assert (a + b)[|a| + n] == b[n];
      RepliesAppend(a, b[..n], node, reply);
    }
  }

  lemma {:induction false} RepliesNonEmpty(ids: seq<nat>, node: Node, reply: (nat, Node) -> Option<nat>)
    ensures Replies(ids, node, reply) != [] <==> exists k :: 0 <= k < |ids| && reply(ids[k], node).Some?
  {
    if ids != [] {
      var n := |ids| - 1;
      RepliesNonEmpty(ids[..n], node, reply);
      assert forall k :: 0 <= k < n ==> ids[..n][k] == ids[k];
    }
  }

  lemma {:induction false} RefCleanupRuns(r: Option<Ref>, node: Node, reply: (nat, Node) -> Option<nat>)
    ensures RefCleanup(r, node, reply).Some? <==> Replies(RefCalls(r), node, reply) != []
    ensures RefCleanup(r, node, reply).Some? ==> CleanupRuns(RefCleanup(r, node, reply).value) == Replies(RefCalls(r), node, reply)
    decreases r, 0
  {
    match r
    case Some(CallbackRef(id)) =>
      assert [id][..0] == [];
    case Some(ComposedCallback(c)) =>
      CollectedRuns(c.refs, node, reply);
    case _ =>
  }

  lemma {:induction false} CollectedRuns(refs: seq<Option<Ref>>, node: Node, reply: (nat, Node) -> Option<nat>)
    ensures Collected(refs, node, reply) == [] <==> Replies(ForeignCalls(refs), node, reply) == []
    ensures RunsAll(Collected(refs, node, reply)) == Replies(ForeignCalls(refs), node, reply)
    decreases refs, 1
  {
    if refs != [] {
      var n := |refs| - 1;
      var front := Collected(refs[..n], node, reply);
      var last := if RefCleanup(refs[n], node, reply).Some? then [RefCleanup(refs[n], node, reply).value] else [];
      CollectedRuns(refs[..n], node, reply);
      RefCleanupRuns(refs[n], node, reply);
      RepliesAppend(ForeignCalls(refs[..n]), RefCalls(refs[n]), node, reply);
      if last != [] {
        assert (front + last)[..|front|] == front;
      } else {
        assert front + last == front;
      }
    }
  }

  /**
    The combined cleanup comes back exactly when some foreign callback the composed ref
    ran returned a function, and running it calls exactly the cleanups those callbacks
    returned, each once, in the order the callbacks were called.
   */
  lemma ComposedCleanupRuns(refs: seq<Option<Ref>>, node: Node, reply: (nat, Node) -> Option<nat>)
    ensures ComposedReply(refs, node, reply).Some? <==>
      exists k :: 0 <= k < |ForeignCalls(refs)| && reply(ForeignCalls(refs)[k], node).Some?
    ensures ComposedReply(refs, node, reply).Some? ==>
      CleanupRuns(ComposedReply(refs, node, reply).value) == Replies(ForeignCalls(refs), node, reply)
  {
    CollectedRuns(refs, node, reply);
    RepliesNonEmpty(ForeignCalls(refs), node, reply);
  }
}
