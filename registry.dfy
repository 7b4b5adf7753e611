/**
  The `elements` map of the hook, from an element's order key to its ref object,
  and the props `getKeydownProps` hands back. Both copies of the hook share this code.
 */
module Registry {
  import opened Wrappers
  import opened Refs
  import opened Traversal

  /**
    A `Map<number, RefObject>` that only grows. `order` is the order keys were first
    inserted in, which is the order `keys()` yields them.
   */
  class Registry {
    var entries: map<int, Cell>
    var order: seq<int>

    ghost predicate Valid()
      reads this
    {
      Distinct(order) && forall k :: k in order <==> k in entries
    }

    constructor ()
      ensures Valid() && entries == map[] && order == []
    {
      entries := map[];
      order := [];
    }

    /**
      The registry grew lazily for `index`: the cell is the entry for `index`; it is the
      old entry if there was one, and then nothing changed; otherwise it is a new empty
      cell, added at the end of the insertion order. No other entry changed.
     */
    twostate predicate RegisteredFrom(index: int, new cell: Cell)
      reads this, cell
    {
      && index in entries && entries[index] == cell
      && (index in old(entries) ==> entries == old(entries) && order == old(order))
      && (index !in old(entries) ==>
            fresh(cell) && cell.current == None
            && entries == old(entries)[index := cell] && order == old(order) + [index])
    }

    /** `if (!has(index)) set(index, createRef()); get(index)`. */
    method Ensure(index: int) returns (cell: Cell)
      requires Valid()
      modifies this
      ensures Valid()
      ensures RegisteredFrom(index, cell)
    {
      if index !in entries {
        var created := new Cell();
        entries := entries[index := created];
        order := order + [index];
      }
      cell := entries[index];
    }

    /** What each key's ref currently holds. */
    function Snapshot(): (live: map<int, Node>)
      reads this, entries.Values
      ensures live.Keys == entries.Keys
      ensures forall k :: k in entries ==> live[k] == entries[k].current
    {
      map k | k in entries :: entries[k].current
    }
  }

  /**
    The per-element `onKeyDown` that `getKeydownProps` builds: its order key and the
    user's own handler.
   */
  datatype KeyDownHandler = KeyDownHandler(index: int, userOnKeyDown: Option<Handler>)

  /**
    A keyboard handler a user passes: code outside the model, known by an identity, or
    the `onKeyDown` another hook's `getKeydownProps` built.
   */
  datatype Handler = ForeignHandler(id: nat) | HookHandler(hook: KeyDownHandler)

  /** A prop value; a composed ref is a callback ref, and so is passed as a `RefValue`. */
  datatype PropValue =
    | Number(n: int)
    | Text(s: string)
    | RefValue(ref: Ref)
    | HandlerValue(handler: Handler)

  type Props = map<string, PropValue>

  /** The props carry a numeric `index`, as the prop types demand. */
  predicate HasIndex(user: Props)
  {
    "index" in user && user["index"].Number?
  }

  /** `ref: userRef`: absent unless the user passed a ref. */
  function UserRef(user: Props): Option<Ref>
  {
    if "ref" in user && user["ref"].RefValue? then Some(user["ref"].ref) else None
  }

  /** `onKeyDown: userOnKeyDown`: absent unless the user passed a handler. */
  function UserOnKeyDown(user: Props): Option<Handler>
  {
    if "onKeyDown" in user && user["onKeyDown"].HandlerValue? then Some(user["onKeyDown"].handler) else None
  }

  /**
    `{ ...rest, ref: composeRefs(userRef, internalRef), onKeyDown }`: every user prop
    except `index`, `ref` and `onKeyDown` is passed through unchanged, `ref` composes the
    user's ref with the registry's cell (user's first), and `onKeyDown` is the handler
    for this element's key.
   */
  function KeydownProps(user: Props, internal: Cell): (props: Props)
    requires HasIndex(user)
    ensures props.Keys == (user.Keys - {"index"}) + {"ref", "onKeyDown"}
    ensures forall k :: k in user && k != "index" && k != "ref" && k != "onKeyDown" ==> props[k] == user[k]
    ensures props["ref"] == RefValue(ComposedCallback(ComposedRef([UserRef(user), Some(ObjectRef(internal))])))
    ensures props["onKeyDown"] == HandlerValue(HookHandler(KeyDownHandler(user["index"].n, UserOnKeyDown(user))))
  {
    var rest := map k | k in user && k != "index" && k != "ref" && k != "onKeyDown" :: user[k];
    rest["ref" := RefValue(ComposedCallback(ComposedRef([UserRef(user), Some(ObjectRef(internal))])))]
        ["onKeyDown" := HandlerValue(HookHandler(KeyDownHandler(user["index"].n, UserOnKeyDown(user))))]
  }

  /**
    `getKeydownProps(userProps)`, the same in both copies of the hook: registers `index`
    lazily and returns the user's props with the composed ref and the new `onKeyDown`.
   */
  method GetKeydownProps(elements: Registry, user: Props) returns (props: Props)
    requires elements.Valid() && HasIndex(user)
    modifies elements
    ensures elements.Valid()
    ensures user["index"].n in elements.entries
    ensures elements.RegisteredFrom(user["index"].n, elements.entries[user["index"].n])
    ensures props == KeydownProps(user, elements.entries[user["index"].n])
  {
    var index := user["index"].n;
    var internalRef := elements.Ensure(index);
    props := KeydownProps(user, internalRef);
  }

  /**
    One hook's props handed to another's `getKeydownProps` with the same `index`: the
    outer composed ref reaches both hooks' cells, the inner hook's first, and the outer
    handler's user handler is the inner hook's `onKeyDown`.
   */
  lemma ChainedProps(outerCell: Cell, innerCell: Cell, index: int)
    ensures var inner := KeydownProps(map["index" := Number(index)], innerCell);
      var outer := KeydownProps(inner["index" := Number(index)], outerCell);
      && outer["ref"] == RefValue(ComposedCallback(ComposedRef([
           Some(ComposedCallback(ComposedRef([None, Some(ObjectRef(innerCell))]))),
           Some(ObjectRef(outerCell))])))
      && ObjectCells(outer["ref"].ref.composed.refs) == {innerCell, outerCell}
      && outer["onKeyDown"] == HandlerValue(HookHandler(KeyDownHandler(index,
           Some(HookHandler(KeyDownHandler(index, None))))))
  {
    var inner := KeydownProps(map["index" := Number(index)], innerCell);
    var outer := KeydownProps(inner["index" := Number(index)], outerCell);
    var nested: seq<Option<Ref>> := [None, Some(ObjectRef(innerCell))];
    var refs: seq<Option<Ref>> := [Some(ComposedCallback(ComposedRef(nested))), Some(ObjectRef(outerCell))];
    assert nested[..1] == [None] && [None][..0] == nested[..0];
    assert ObjectCells(nested[..1]) == {};
    assert ObjectCells(nested) == ObjectCells(nested[..1]) + {innerCell};
    assert refs[..1] == [refs[0]] && refs[..1][..0] == refs[..0];
    assert ObjectCells(refs[..1]) == ObjectCells(nested);
    assert ObjectCells(refs) == ObjectCells(refs[..1]) + {outerCell};
    assert outer["ref"].ref.composed.refs == refs;
  }
}
