/**
  The library's `useKeydownEnter`: for each element it registers a ref under the
  element's order key and returns props whose `onKeyDown` moves focus on Enter.
  Its guard leaves an already-handled or composing event entirely alone (not even the
  user's handler runs), and prevents the default only when `nativeEvent.key` is "Enter".
 */
module LibraryHook {
  import opened Wrappers
  import opened Refs
  import opened Traversal
  import opened Registry
  import opened Events

  /** The handler intercepts the event: it calls `preventDefault` and may move focus. */
  predicate Intercepts(ev: KeyEvent, isEnable: bool)
  {
    !ev.defaultPrevented && !ev.isComposing && ev.nativeKey == "Enter" && isEnable
  }

  /**
    The effects of `onKeyDown`, given the event, `isEnable`, the user's handler and
    `focus`, what the traversal block focuses once it is reached (FocusTarget).
   */
  function KeyDownEffects(ev: KeyEvent, isEnable: bool, focus: Option<ElemId>, user: Option<Handler>): seq<Effect>
  {
    if ev.defaultPrevented || ev.isComposing then [] else HandledEffects(Intercepts(ev, isEnable), focus, user)
  }

  /**
    The guard of `onKeyDown`: what it leaves alone, when it prevents the default and
    moves focus, and that the user's handler runs last.
   */
  lemma KeyDownEffectsGuard(ev: KeyEvent, isEnable: bool, focus: Option<ElemId>, user: Option<Handler>)
    // an already-handled or composing event is left alone: no effect, not even the user handler
    ensures ev.defaultPrevented || ev.isComposing ==> KeyDownEffects(ev, isEnable, focus, user) == []
    // preventDefault exactly once when intercepted, and first; never otherwise
    ensures var r := KeyDownEffects(ev, isEnable, focus, user);
      multiset(r)[PreventDefault] == if Intercepts(ev, isEnable) then 1 else 0
    ensures var r := KeyDownEffects(ev, isEnable, focus, user);
      PreventDefault in r ==> r[0] == PreventDefault
    // focus only when intercepted, on what the traversal resolves to, at most once
    ensures var r := KeyDownEffects(ev, isEnable, focus, user);
      forall el: ElemId :: Focus(el) in r <==> Intercepts(ev, isEnable) && focus == Some(el)
    ensures AtMostOneFocus(KeyDownEffects(ev, isEnable, focus, user))
    // the user handler runs exactly once, last, whenever the event is not left alone
    ensures var r := KeyDownEffects(ev, isEnable, focus, user);
      user.Some? && !ev.defaultPrevented && !ev.isComposing ==> multiset(r)[UserHandler(user.value)] == 1 && r[|r| - 1] == UserHandler(user.value)
    ensures var r := KeyDownEffects(ev, isEnable, focus, user);
      user.None? ==> forall h: Handler :: UserHandler(h) !in r
  {
    HandledPreventDefault(Intercepts(ev, isEnable), focus, user);
    HandledFocus(Intercepts(ev, isEnable), focus, user);
    HandledUserLast(Intercepts(ev, isEnable), focus, user);
  }

  /** One instance of the hook, created with a fixed `isEnable`. */
  class KeydownEnter {
    const isEnable: bool
    const elements: Registry

    /** The registry keeps its keys and insertion order in step. */
    ghost predicate Valid()
      reads this, elements
    {
      elements.Valid()
    }

    /** `useKeydownEnter({ isEnable })`: a hook instance with a new, empty `Map`. */
    constructor (isEnable: bool)
      ensures Valid() && this.isEnable == isEnable
      ensures fresh(elements) && elements.Valid() && elements.entries == map[] && elements.order == []
    {
      this.isEnable := isEnable;
      elements := new Registry();
    }

    /**
      The `onKeyDown` built for handler `h`, run on event `e`. The user's handler is
      code outside the model; `userPrevents` says whether it calls `preventDefault` on
      the event when it runs.
     */
    method OnKeyDown(h: KeyDownHandler, e: KeyboardEvent, userPrevents: bool) returns (trace: seq<Effect>)
      requires Valid()
      modifies e
      ensures trace == KeyDownEffects(old(e.View()), isEnable,
        old(FocusTarget(e.key, e.shiftKey, h.index, elements.order, elements.Snapshot())), h.userOnKeyDown)
      ensures e.defaultPrevented == (old(e.defaultPrevented) || PreventDefault in trace
        || (userPrevents && h.userOnKeyDown.Some? && UserHandler(h.userOnKeyDown.value) in trace))
    {
      ghost var ev := e.View();
      ghost var focus := FocusTarget(e.key, e.shiftKey, h.index, elements.order, elements.Snapshot());
      trace := [];
      if e.defaultPrevented {
        return;
      }
      if e.isComposing {
        return;
      }
      if e.nativeKey == "Enter" && isEnable {
        trace := InterceptEnter(elements, h.index, e);
      }
      assert trace == if Intercepts(ev, isEnable) then [PreventDefault] + FocusEffect(focus) else [];
      assert e.defaultPrevented == (PreventDefault in trace);
      var userEffects := CallUser(e, h.userOnKeyDown, userPrevents);
      assert PreventDefault !in userEffects;
      trace := trace + userEffects;
    }
  }

  /** A plain Enter press (with or without Shift), not yet handled and not composing. */
  predicate PlainEnter(ev: KeyEvent, shift: bool)
  {
    ev == KeyEvent(false, false, "Enter", "Enter", shift)
  }

  /** Every registered key's ref holds an element. */
  ghost predicate AllMounted(order: seq<int>, live: map<int, Node>)
  {
    (forall k :: k in live <==> k in order) && forall k :: k in live ==> live[k].Some?
  }

  /** Keys 0..4, all mounted: Enter on key 2 prevents the default and focuses key 3. */
  lemma ForwardFromMiddle(order: seq<int>, live: map<int, Node>, ev: KeyEvent)
    requires Distinct(order) && (forall k :: k in order <==> 0 <= k < 5) && AllMounted(order, live)
    requires PlainEnter(ev, false)
    ensures KeyDownEffects(ev, true, FocusTarget(ev.key, ev.shiftKey, 2, order, live), None) == [PreventDefault, Focus(live[3].value)]
  {
    ForwardContiguous(order, 5, 2);
    EnterIsEnter();
    assert FocusTarget(ev.key, false, 2, order, live) == live[3];
  }

  /** Keys 0..4: Shift+Enter on key 0 prevents the default and focuses nothing (Math.max() is -Infinity). */
  lemma BackwardFromFirst(order: seq<int>, live: map<int, Node>, ev: KeyEvent)
    requires (forall k :: k in order <==> 0 <= k < 5) && AllMounted(order, live)
    requires PlainEnter(ev, true)
    ensures KeyDownEffects(ev, true, FocusTarget(ev.key, ev.shiftKey, 0, order, live), None) == [PreventDefault]
  {
    BackwardTarget(order, 0);
    EnterIsEnter();
  }

  /**
    Keys {0, 1, 3}: Enter on key 1 looks up position 2 as a key; key 2 is not
    registered, so nothing is focused, although key 3 follows key 1.
   */
  lemma SkippedKeyFocusesNothing(order: seq<int>, live: map<int, Node>, ev: KeyEvent)
    requires Distinct(order) && (forall k :: k in order <==> k == 0 || k == 1 || k == 3) && AllMounted(order, live)
    requires PlainEnter(ev, false)
    ensures KeyDownEffects(ev, true, FocusTarget(ev.key, ev.shiftKey, 1, order, live), None) == [PreventDefault]
  {
    SkippedKeyForward(order);
    EnterIsEnter();
  }

  /** Keys 0..11, all mounted: Enter on key 9 focuses key 2, not key 10. */
  lemma TwelveKeysFocusKeyTwo(order: seq<int>, live: map<int, Node>, ev: KeyEvent)
    requires Distinct(order) && (forall k :: k in order <==> 0 <= k < 12) && AllMounted(order, live)
    requires PlainEnter(ev, false)
    ensures KeyDownEffects(ev, true, FocusTarget(ev.key, ev.shiftKey, 9, order, live), None) == [PreventDefault, Focus(live[2].value)]
  {
    TwelveKeysForward(order);
    EnterIsEnter();
  }
}
