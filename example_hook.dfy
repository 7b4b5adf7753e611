/**
  The example application's older copy of `useKeydownEnter`. It shares the registry,
  `composeRefs` and the traversal block with the library, but its guard differs: only
  an already-handled event is left alone; when the hook is enabled and the event is not
  composing it prevents the default of every key, whatever `nativeEvent.key` is, and the
  user's handler runs on every event that is not already handled.
 */
module ExampleHook {
  import opened Wrappers
  import opened Refs
  import opened Traversal
  import opened Registry
  import opened Events
  import LibraryHook

  /** The handler intercepts the event: it calls `preventDefault` and may move focus. */
  predicate Intercepts(ev: KeyEvent, isEnable: bool)
  {
    !ev.defaultPrevented && isEnable && !ev.isComposing
  }

  /**
    The effects of `onKeyDown`, given the event, `isEnable`, the user's handler and
    `focus`, what the traversal block focuses once it is reached (FocusTarget).
   */
  function KeyDownEffects(ev: KeyEvent, isEnable: bool, focus: Option<ElemId>, user: Option<Handler>): seq<Effect>
  {
    if ev.defaultPrevented then [] else HandledEffects(Intercepts(ev, isEnable), focus, user)
  }

  /**
    The guard of `onKeyDown`: what it leaves alone, when it prevents the default and
    moves focus, and that the user's handler runs last.
   */
  lemma KeyDownEffectsGuard(ev: KeyEvent, isEnable: bool, focus: Option<ElemId>, user: Option<Handler>)
    // only an already-handled event is left alone
    ensures ev.defaultPrevented ==> KeyDownEffects(ev, isEnable, focus, user) == []
    // preventDefault exactly once when intercepted, and first; never otherwise
    ensures var r := KeyDownEffects(ev, isEnable, focus, user);
      multiset(r)[PreventDefault] == if Intercepts(ev, isEnable) then 1 else 0
    ensures var r := KeyDownEffects(ev, isEnable, focus, user);
      PreventDefault in r ==> r[0] == PreventDefault
    // focus only when intercepted, on what the traversal resolves to, at most once
    ensures var r := KeyDownEffects(ev, isEnable, focus, user);
      forall el: ElemId :: Focus(el) in r <==> Intercepts(ev, isEnable) && focus == Some(el)
    ensures AtMostOneFocus(KeyDownEffects(ev, isEnable, focus, user))
    // the user handler runs exactly once, last, on every event not already handled
    ensures var r := KeyDownEffects(ev, isEnable, focus, user);
      user.Some? && !ev.defaultPrevented ==> multiset(r)[UserHandler(user.value)] == 1 && r[|r| - 1] == UserHandler(user.value)
    ensures var r := KeyDownEffects(ev, isEnable, focus, user);
      user.None? ==> forall h: Handler :: UserHandler(h) !in r
  {
    HandledPreventDefault(Intercepts(ev, isEnable), focus, user);
    HandledFocus(Intercepts(ev, isEnable), focus, user);
    HandledUserLast(Intercepts(ev, isEnable), focus, user);
  }

  /** One instance of the hook, created with a fixed `isEnable`. */
  class KeydownEnter {
    const isEnable: bool
    const elements: Registry

    /** The registry keeps its keys and insertion order in step. */
    ghost predicate Valid()
      reads this, elements
    {
      elements.Valid()
    }

    /** `useKeydownEnter({ isEnable })`: a hook instance with a new, empty `Map`. */
    constructor (isEnable: bool)
      ensures Valid() && this.isEnable == isEnable
      ensures fresh(elements) && elements.Valid() && elements.entries == map[] && elements.order == []
    {
      this.isEnable := isEnable;
      elements := new Registry();
    }

    /**
      The `onKeyDown` built for handler `h`, run on event `e`. The user's handler is
      code outside the model; `userPrevents` says whether it calls `preventDefault` on
      the event when it runs.
     */
    method OnKeyDown(h: KeyDownHandler, e: KeyboardEvent, userPrevents: bool) returns (trace: seq<Effect>)
      requires Valid()
      modifies e
      ensures trace == KeyDownEffects(old(e.View()), isEnable,
        old(FocusTarget(e.key, e.shiftKey, h.index, elements.order, elements.Snapshot())), h.userOnKeyDown)
      ensures e.defaultPrevented == (old(e.defaultPrevented) || PreventDefault in trace
        || (userPrevents && h.userOnKeyDown.Some? && UserHandler(h.userOnKeyDown.value) in trace))
    {
      ghost var ev := e.View();
      ghost var focus := FocusTarget(e.key, e.shiftKey, h.index, elements.order, elements.Snapshot());
      trace := [];
      if e.defaultPrevented {
        return;
      }
      if isEnable && !e.isComposing {
        trace := InterceptEnter(elements, h.index, e);
      }
      assert trace == if Intercepts(ev, isEnable) then [PreventDefault] + FocusEffect(focus) else [];
      assert e.defaultPrevented == (PreventDefault in trace);
      var userEffects := CallUser(e, h.userOnKeyDown, userPrevents);
      assert PreventDefault !in userEffects;
      trace := trace + userEffects;
    }
  }

  /**
    The two copies differ on exactly these events: with the hook enabled, a key that is
    not Enter and not composing has its default prevented here but not in the library,
    and a composing event runs the user's handler here but nothing in the library. On
    every other event they have the same effects.
   */
  lemma CopiesCompared(ev: KeyEvent, isEnable: bool, focus: Option<ElemId>, user: Option<Handler>)
    ensures KeyDownEffects(ev, isEnable, focus, user) != LibraryHook.KeyDownEffects(ev, isEnable, focus, user) <==>
      !ev.defaultPrevented && ((isEnable && !ev.isComposing && ev.nativeKey != "Enter") || (ev.isComposing && user.Some?))
    ensures !ev.defaultPrevented && isEnable && !ev.isComposing && ev.nativeKey != "Enter" ==>
      PreventDefault in KeyDownEffects(ev, isEnable, focus, user)
      && PreventDefault !in LibraryHook.KeyDownEffects(ev, isEnable, focus, user)
    ensures !ev.defaultPrevented && ev.isComposing && user.Some? ==>
      UserHandler(user.value) in KeyDownEffects(ev, isEnable, focus, user)
      && LibraryHook.KeyDownEffects(ev, isEnable, focus, user) == []
  {
    var r := KeyDownEffects(ev, isEnable, focus, user);
    var q := LibraryHook.KeyDownEffects(ev, isEnable, focus, user);
    if !ev.defaultPrevented && isEnable && !ev.isComposing && ev.nativeKey != "Enter" {
      assert multiset(r)[PreventDefault] == 1;
      assert !LibraryHook.Intercepts(ev, isEnable);
    } else if !ev.defaultPrevented && ev.isComposing && user.Some? {
      assert r == [UserHandler(user.value)];
    } else if !ev.defaultPrevented && ev.isComposing {
      assert r == [];
    } else if !ev.defaultPrevented {
      assert Intercepts(ev, isEnable) == LibraryHook.Intercepts(ev, isEnable);
    }
  }

  /**
    Keys 0..4, all mounted: Tab on key 2 with the hook enabled prevents the default
    (the browser does not move focus) and the handler focuses nothing.
   */
  lemma TabIsSwallowed(order: seq<int>, live: map<int, Node>, ev: KeyEvent)
    requires (forall k :: k in order <==> 0 <= k < 5) && LibraryHook.AllMounted(order, live)
    requires ev == KeyEvent(false, false, "Tab", "Tab", false)
    ensures KeyDownEffects(ev, true, FocusTarget(ev.key, ev.shiftKey, 2, order, live), None) == [PreventDefault]
  {
    assert !IsEnter("Tab") by {
      IsEnterSpellings("Tab");
    }
  }

  /** Keys 0..4, all mounted: "ENTER" in capitals on key 2 moves focus to key 3, as "Enter" does. */
  lemma CapitalEnterTraverses(order: seq<int>, live: map<int, Node>, ev: KeyEvent)
    requires Distinct(order) && (forall k :: k in order <==> 0 <= k < 5) && LibraryHook.AllMounted(order, live)
    requires ev == KeyEvent(false, false, "Enter", "ENTER", false)
    ensures KeyDownEffects(ev, true, FocusTarget(ev.key, ev.shiftKey, 2, order, live), None) == [PreventDefault, Focus(live[3].value)]
  {
    ForwardContiguous(order, 5, 2);
    IsEnterSpellings("ENTER");
    assert FocusTarget(ev.key, false, 2, order, live) == live[3];
  }
}
