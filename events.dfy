/**
  The keyboard event the `onKeyDown` handlers see, the effects they have, and the
  traversal block both copies share: an Enter key (in any case) and a non-empty
  registry look up the target key and focus the element its ref holds.
 */
module Events {
  import opened Wrappers
  import opened Refs
  import opened Traversal
  import opened Registry

  /** The observable effects of one key-down event, in the order they happen. */
  datatype Effect =
    | PreventDefault
    | Focus(element: ElemId)
    | UserHandler(handler: Handler)

  /**
    What a handler reads of an event: `isDefaultPrevented()`, `nativeEvent.isComposing`,
    `nativeEvent.key`, `key` and `shiftKey`. The two keys are independent inputs.
   */
  datatype KeyEvent = KeyEvent(defaultPrevented: bool, isComposing: bool, nativeKey: string, key: string, shiftKey: bool)

  /** A React keyboard event; `preventDefault` is the one thing a handler changes on it. */
  class KeyboardEvent {
    var defaultPrevented: bool
    const isComposing: bool
    const nativeKey: string
    const key: string
    const shiftKey: bool

    constructor (defaultPrevented: bool, isComposing: bool, nativeKey: string, key: string, shiftKey: bool)
      ensures View() == KeyEvent(defaultPrevented, isComposing, nativeKey, key, shiftKey)
    {
      this.defaultPrevented := defaultPrevented;
      this.isComposing := isComposing;
      this.nativeKey := nativeKey;
      this.key := key;
      this.shiftKey := shiftKey;
    }

    function View(): KeyEvent
      reads this
    {
      KeyEvent(defaultPrevented, isComposing, nativeKey, key, shiftKey)
    }

    method PreventDefault()
      modifies this
      ensures defaultPrevented
    {
      defaultPrevented := true;
    }
  }

  /** ASCII case folding of one character. */
  function LowerChar(c: char): char
  {
    if 'A' <= c <= 'Z' then (c as int + 32) as char else c
  }

  /** `toLowerCase()`, restricted to ASCII letters. */
  function AsciiLower(s: string): string
  {
    seq(|s|, i requires 0 <= i < |s| => LowerChar(s[i]))
  }

  /**
    Lower-casing leaves no capital letter, turns each capital into the letter 32 code
    units above it, keeps every other character, and a second pass changes nothing.
   */
  lemma AsciiLowerFolds(s: string)
    ensures |AsciiLower(s)| == |s|
    ensures forall i :: 0 <= i < |s| ==> !('A' <= AsciiLower(s)[i] <= 'Z')
    ensures forall i :: 0 <= i < |s| && 'A' <= s[i] <= 'Z' ==> AsciiLower(s)[i] as int == s[i] as int + 32
    ensures forall i :: 0 <= i < |s| && !('A' <= s[i] <= 'Z') ==> AsciiLower(s)[i] == s[i]
    ensures AsciiLower(AsciiLower(s)) == AsciiLower(s)
  {
    var r := AsciiLower(s);
    assert forall i :: 0 <= i < |s| ==> r[i] == LowerChar(s[i]);
    assert forall i :: 0 <= i < |r| ==> AsciiLower(r)[i] == LowerChar(r[i]);
  }

  /** `key.toLowerCase() === 'enter'`. */
  predicate IsEnter(key: string)
  {
    AsciiLower(key) == "enter"
  }

  /** The case-insensitive test accepts exactly the five letters of "enter", each in either case. */
  lemma IsEnterSpellings(key: string)
    ensures IsEnter(key) <==>
      |key| == 5 && forall i :: 0 <= i < 5 ==> key[i] == "enter"[i] || key[i] == "ENTER"[i]
  {
    if |key| == 5 && forall i :: 0 <= i < 5 ==> key[i] == "enter"[i] || key[i] == "ENTER"[i] {
      assert forall i :: 0 <= i < 5 ==> AsciiLower(key)[i] == "enter"[i];
    }
    if IsEnter(key) {
      forall i | 0 <= i < 5
        ensures key[i] == "enter"[i] || key[i] == "ENTER"[i]
      {
        assert LowerChar(key[i]) == "enter"[i];
      }
    }
  }

  /** The key React reports for the Enter key passes the test. */
  lemma EnterIsEnter()
    ensures IsEnter("Enter")
  {
    IsEnterSpellings("Enter");
  }

  /**
    The element the traversal block focuses once it is reached: only for an Enter key
    and a non-empty registry, and only if the looked-up key has an entry whose ref holds
    an element.
   */
  function FocusTarget(key: string, shift: bool, index: int, order: seq<int>, live: map<int, Node>): Option<ElemId>
  {
    if IsEnter(key) && |order| != 0 then
      match Target(order, index, shift)
      case None => None
      case Some(t) => if t in live then live[t] else None
    else None
  }

  /**
    The traversal block of `onKeyDown`, run on the live registry: for an Enter key and
    a non-empty registry it sorts the keys, computes `nextIndex` and looks it up as a
    key; it returns the element whose `focus()` is then called, if any.
   */
  method FocusNext(elements: Registry, index: int, key: string, shiftKey: bool) returns (focused: Option<ElemId>)
    requires elements.Valid()
    ensures focused == FocusTarget(key, shiftKey, index, elements.order, elements.Snapshot())
  {
    focused := None;
    ghost var live := elements.Snapshot();
    if AsciiLower(key) == "enter" && |elements.order| != 0 {
      var sortedElements := SortKeys(elements.order);
      var nextIndex: Option<int> := Some(-1);
      if shiftKey {
        nextIndex := MaxOf(Below(sortedElements, index));
      } else {
        nextIndex := Some(FindIndex(sortedElements, index));
      }
      assert nextIndex == NextIndex(elements.order, index, shiftKey);
      ghost var target := Target(elements.order, index, shiftKey);
      if nextIndex != Some(-1) && nextIndex.Some? && nextIndex.value in elements.entries {
        assert target == nextIndex;
        var nextElement := elements.entries[nextIndex.value];
        assert live[nextIndex.value] == nextElement.current;
        focused := nextElement.current;
      } else {
        assert target.None? || target.value !in live;
      }
    }
  }

  /**
    The intercepting branch both copies share: `e.preventDefault()`, then the traversal
    block on the live registry, which focuses what FocusTarget names, if anything.
   */
  method InterceptEnter(elements: Registry, index: int, e: KeyboardEvent) returns (effects: seq<Effect>)
    requires elements.Valid()
    modifies e
    ensures effects == [PreventDefault] + FocusEffect(old(FocusTarget(e.key, e.shiftKey, index, elements.order, elements.Snapshot())))
    ensures e.defaultPrevented
  {
    ghost var focus := FocusTarget(e.key, e.shiftKey, index, elements.order, elements.Snapshot());
    e.PreventDefault();
    var key, shiftKey := e.key, e.shiftKey;
    var focused := FocusNext(elements, index, key, shiftKey);
    assert focused == focus;
    effects := [PreventDefault];
    if focused.Some? {
      effects := effects + [Focus(focused.value)];
    }
  }

  /**
    `userOnKeyDown?.(e)`: the user's handler, if any, runs once on the event. It is code
    outside the model; `userPrevents` says whether it calls `preventDefault`.
   */
  method CallUser(e: KeyboardEvent, user: Option<Handler>, userPrevents: bool) returns (effects: seq<Effect>)
    modifies e
    ensures effects == if user.Some? then [UserHandler(user.value)] else []
    ensures e.defaultPrevented == (old(e.defaultPrevented) || (userPrevents && user.Some?))
  {
    effects := [];
    if user.Some? {
      effects := [UserHandler(user.value)];
      if userPrevents {
        e.PreventDefault();
      }
    }
  }

  /** `nextElement?.current?.focus()`: a focus effect when there is an element. */
  function FocusEffect(target: Option<ElemId>): seq<Effect>
  {
    if target.Some? then [Focus(target.value)] else []
  }

  /** No event focuses twice. */
  predicate AtMostOneFocus(trace: seq<Effect>)
  {
    forall i, j :: 0 <= i < j < |trace| && trace[i].Focus? ==> !trace[j].Focus?
  }

  /**
    The effects of a handler that was not left alone: when it intercepts, `preventDefault`
    and then the focus the traversal yields; after that the user's handler, if any.
   */
  function HandledEffects(intercept: bool, focus: Option<ElemId>, user: Option<Handler>): seq<Effect>
  {
    (if intercept then [PreventDefault] + FocusEffect(focus) else [])
    + (if user.Some? then [UserHandler(user.value)] else [])
  }

  /** When a handler intercepts, `preventDefault` comes exactly once and first; otherwise never. */
  lemma HandledPreventDefault(intercept: bool, focus: Option<ElemId>, user: Option<Handler>)
    ensures multiset(HandledEffects(intercept, focus, user))[PreventDefault] == if intercept then 1 else 0
    ensures PreventDefault in HandledEffects(intercept, focus, user) ==> HandledEffects(intercept, focus, user)[0] == PreventDefault
  {
    var front := if intercept then [PreventDefault] + FocusEffect(focus) else [];
    var back := if user.Some? then [UserHandler(user.value)] else [];
    assert multiset(front + back) == multiset(front) + multiset(back);
  }

  /** Focus moves only when the handler intercepts, to what the traversal yields, and at most once. */
  lemma HandledFocus(intercept: bool, focus: Option<ElemId>, user: Option<Handler>)
    ensures forall el: ElemId :: Focus(el) in HandledEffects(intercept, focus, user) <==> intercept && focus == Some(el)
    ensures AtMostOneFocus(HandledEffects(intercept, focus, user))
  {
    var r := HandledEffects(intercept, focus, user);
    var front := if intercept then [PreventDefault] + FocusEffect(focus) else [];
    var back := if user.Some? then [UserHandler(user.value)] else [];
    assert r == front + back;
    forall el: ElemId
      ensures Focus(el) in r <==> intercept && focus == Some(el)
    {
      assert Focus(el) in r <==> Focus(el) in front;
    }
    forall i, j | 0 <= i < j < |r| && r[i].Focus?
      ensures !r[j].Focus?
    {
      assert intercept && i == 1;
    }
  }

  /** The user's handler, if any, runs exactly once and last; without one, no user handler runs. */
  lemma HandledUserLast(intercept: bool, focus: Option<ElemId>, user: Option<Handler>)
    ensures user.Some? ==>
      multiset(HandledEffects(intercept, focus, user))[UserHandler(user.value)] == 1
      && HandledEffects(intercept, focus, user)[|HandledEffects(intercept, focus, user)| - 1] == UserHandler(user.value)
    ensures user.None? ==> forall h: Handler :: UserHandler(h) !in HandledEffects(intercept, focus, user)
  {
    var front := if intercept then [PreventDefault] + FocusEffect(focus) else [];
    var back := if user.Some? then [UserHandler(user.value)] else [];
    assert multiset(front + back) == multiset(front) + multiset(back);
  }
}
