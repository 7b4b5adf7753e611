# useKeydownEnter in Dafny

`useKeydownEnter` is a React hook. It makes the Enter key move focus between form
elements, and Shift+Enter move it back. Each element is registered under a numeric
`index` through `getKeydownProps`. That call returns props with two parts:

- a composed `ref`, which stores the mounted element in the hook's registry and also
  forwards it to the user's own ref;
- an `onKeyDown` handler, which runs on every key press.

When the handler intercepts a key it calls `preventDefault`. On Enter it then looks up
another registered element and focuses it. Finally it calls the user's own `onKeyDown`.

The repository holds two copies of the hook:

- the library (`src/hooks/use-keydown-enter.ts`);
- an older copy in the example application (`example/src/hooks/useKeydown.ts`).

Both copies share the registry, `composeRefs` and the traversal code. Only their guards
differ. The model has one module per concern:

- `Refs`: ref objects as a `Cell` class with a mutable `current`, and refs as values.
  - Callback refs are code outside the model, named by an identity. What each one
    returns for a node is an input function `reply`.
  - A ref that an earlier `composeRefs` returned is a function ref as well. Calling it
    runs its own refs, so one hook's props can be handed to another hook.
  - `InvokeComposed` is the `for` loop of `composeRefs`, and `InvokeArg` is one pass of
    it. They are proved against functions of the arguments: the positions called, the
    foreign callbacks run, the cleanups kept and the cells assigned. Lemmas say what
    each function holds, and that running the combined cleanup (`RunCleanup`) calls
    exactly the cleanups the foreign callbacks returned.
- `Traversal`: the traversal arithmetic.
  - `[...keys()].sort()` with no comparator compares the keys' decimal string forms
    character by character. The model builds those strings and proves that order is a
    strict total order. The sort is specified as an insertion sort over any comparator,
    run with this one.
  - For distinct keys the sorted array is unique, so the engine's sort algorithm does
    not matter.
  - Also here: `findIndex`, `filter`, `Math.max` (whose −Infinity for an empty list is
    `None`), the −1 sentinel, and the key the handler looks up.
- `Registry`: the hook's `Map<number, RefObject>`, as a class whose `entries` map and
  insertion `order` only grow. Also here is `getKeydownProps`, which is the same in both
  copies.
- `Events`: the keyboard event, with `preventDefault` as its one mutation. Also the
  ASCII `toLowerCase() === 'enter'` test, the intercepting branch (`InterceptEnter`,
  with the traversal block `FocusNext`) and the call of the user's handler
  (`CallUser`), all shared by both copies.
- `LibraryHook` and `ExampleHook`: each copy's `onKeyDown` as a method. Each is proved
  equal to a function of the event, the hook's flag, the traversal outcome and the
  user's handler. A lemma about that function, `KeyDownEffectsGuard`, states the guard:
  what is left alone, when the default is prevented, when focus moves, and that the
  user's handler runs last.
  `ExampleHook.CopiesCompared` states where the two copies differ.

The model follows the code. Several of its behaviours are ones a reader might not expect:

- **A handled event is left alone.** An event whose default is already prevented is
  ignored by both copies. The user's handler does not run either.
- **Composing events differ by copy.** The library also ignores a composing event
  entirely. The example copy still runs the user's handler for it.
- **Forward traversal looks up a position.** The handler stores a *position* in the
  sorted array of keys, then looks that position up as a *key*.
  - For keys 0..n−1 with n ≤ 10 this happens to focus the next key
    (`ForwardContiguous`).
  - For keys {0, 1, 3}, Enter on key 1 looks up key 2, which does not exist, so
    nothing is focused (`SkippedKeyForward`).
  - For keys 0..11, Enter on key 9 focuses key 2, because the keys sort as strings
    (`TwelveKeysForward`).
- **Backward traversal looks up a key.** It looks up the largest key below `index`.
  There is no lookup when that key is −1, the value used as the "nothing found"
  sentinel.

## Model

The example copy's `composeRefs` (`example/src/hooks/useKeydown.ts` lines 3-27) is the
same code as the library's. So are its lazy insertion (lines 49-52), its
`getKeydownProps` (lines 45-56) and its traversal block (lines 67-80). Each of these has
one row below, which cites the library.

| member | source | states |
|---|---|---|
| Refs.CallbackPositionsExact | src/hooks/use-keydown-enter.ts:7-10 | the positions called are exactly the function refs' positions (callback refs and composed refs), in increasing argument order |
| Refs.ObjectCellsExact | src/hooks/use-keydown-enter.ts:14-16 | a cell is assigned exactly when some argument leads to it: the argument is an object ref holding it, or a composed ref that leads to it |
| Refs.InvokeArg | src/hooks/use-keydown-enter.ts:8-16 | one loop pass: an absent ref does nothing; a function ref is called (a composed ref runs its own refs) and what it returns is kept if it is a function; an object ref's cell, at any depth, gets the node |
| Refs.InvokeComposed | src/hooks/use-keydown-enter.ts:3-27 | calls every function ref in argument order and skips absent refs; the foreign callbacks run depth first in argument order; sets `current` of every object ref it leads to to the node and changes no other cell; returns the combined cleanup when some cleanup was kept, and nothing otherwise |
| Refs.RunCleanup | src/hooks/use-keydown-enter.ts:20-22 | running a combined cleanup runs each kept cleanup exactly once, in the order they were kept, and a nested combined cleanup runs its own parts in turn |
| Refs.ComposedCleanupRuns | src/hooks/use-keydown-enter.ts:10-25 | a combined cleanup is returned if and only if some foreign callback the call ran returned a function; running it calls exactly the cleanups those callbacks returned, each once, in the order the callbacks were called |
| Traversal.KeyString | src/hooks/use-keydown-enter.ts:81 | the string form of a key is non-empty and starts with '-' exactly for negative keys |
| Traversal.KeyStringInjective | src/hooks/use-keydown-enter.ts:81 | distinct keys have distinct string forms |
| Traversal.KeyOrderFacts | src/hooks/use-keydown-enter.ts:81 | the default sort's order on keys is irreflexive, transitive and total on distinct keys |
| Traversal.KeyLessIsStrictTotalOrder | src/hooks/use-keydown-enter.ts:81 | the default comparison is a strict total order on keys, so it is a consistent comparator |
| Traversal.SingleDigitOrder | src/hooks/use-keydown-enter.ts:81 | single-digit keys sort as numbers do |
| Traversal.TwoDigitOrder | src/hooks/use-keydown-enter.ts:81 | 1 sorts before 10, 10 before 11, and 11 before 2 |
| Traversal.Insert | src/hooks/use-keydown-enter.ts:81 | inserting a key adds exactly that key to the multiset |
| Traversal.InsertSorted | src/hooks/use-keydown-enter.ts:81 | under a strict total order, inserting into a sorted array keeps it sorted |
| Traversal.SortWith | src/hooks/use-keydown-enter.ts:81 | sorting with a comparator permutes the array |
| Traversal.SortWithSorted | src/hooks/use-keydown-enter.ts:81 | sorting with a strict total order yields an array in that order |
| Traversal.SortKeys | src/hooks/use-keydown-enter.ts:81 | the sorted array is a permutation of the keys |
| Traversal.SortKeysSorted | src/hooks/use-keydown-enter.ts:81 | the sorted array is in the order of the keys' string forms |
| Traversal.SortKeysMembers | src/hooks/use-keydown-enter.ts:81 | the sorted array holds exactly the registered keys |
| Traversal.SortedUnique | src/hooks/use-keydown-enter.ts:81 | two arrays sorted by the same strict total order and holding the same keys are equal, so every sort algorithm gives the same array |
| Traversal.SortKeysUnique | src/hooks/use-keydown-enter.ts:81 | any array in string order that holds the registered keys is the sorted array |
| Traversal.SortIgnoresInsertionOrder | src/hooks/use-keydown-enter.ts:53-62 | the sorted array depends only on which keys were registered, not on the order `getKeydownProps` inserted them in |
| Traversal.SameMembers | src/hooks/use-keydown-enter.ts:59-61 | two duplicate-free key lists with the same members are permutations of each other |
| Traversal.FindIndex | src/hooks/use-keydown-enter.ts:87 | the first position holding a key above `index`; −1 if and only if there is none |
| Traversal.Below | src/hooks/use-keydown-enter.ts:85 | keeps exactly the keys below `index` |
| Traversal.MaxOf | src/hooks/use-keydown-enter.ts:85 | the largest element, which is one of the elements; −Infinity (None) if and only if the list is empty |
| Traversal.BackwardTarget | src/hooks/use-keydown-enter.ts:83-91 | Shift+Enter looks up the largest key below `index`; there is no lookup if and only if no key is below `index` or that key is the sentinel −1 |
| Traversal.ForwardTarget | src/hooks/use-keydown-enter.ts:83-91 | Enter looks up nothing if and only if no key lies above `index`; otherwise it looks up the sorted-array position of the first key above `index` |
| Traversal.ForwardContiguous | src/hooks/use-keydown-enter.ts:81-91 | for keys 0..n−1 with n ≤ 10, Enter looks up `index + 1`, which is the next key, and looks up nothing from the last key |
| Traversal.SkippedKeyForward | src/hooks/use-keydown-enter.ts:81-91 | for keys {0, 1, 3}, Enter on 1 looks up the unregistered key 2, although the next key is 3 |
| Traversal.ThreeKeysSorted | src/hooks/use-keydown-enter.ts:81 | 0, 1, 3 is in string order and has no duplicates |
| Traversal.TwelveKeysSorted | src/hooks/use-keydown-enter.ts:81 | 0, 1, 10, 11, 2, …, 9 is in string order |
| Traversal.TwelveKeysMembers | src/hooks/use-keydown-enter.ts:81 | that array holds each of 0..11 exactly once |
| Traversal.TwelveKeysForward | src/hooks/use-keydown-enter.ts:81-91 | for keys 0..11, Enter on 9 looks up key 2, although the next key is 10 |
| Registry.Registry.constructor | src/hooks/use-keydown-enter.ts:53 | the hook starts with an empty map |
| Registry.Registry.Ensure | src/hooks/use-keydown-enter.ts:59-62 | returns the entry for `index`; a present entry is reused and nothing changes; an absent one is a new empty ref added last in insertion order; the registry stays duplicate-free and in step with its keys |
| Registry.KeydownProps | src/hooks/use-keydown-enter.ts:57-67 | every user prop except `index`, `ref` and `onKeyDown` passes through unchanged; `ref` is a composed ref of the user's ref (any ref, including one another hook composed) before the registry's ref; `onKeyDown` is the handler for this key and the user's handler, whatever kind of handler it is |
| Registry.ChainedProps | src/hooks/use-keydown-enter.ts:57-66 | one hook's props handed to another's `getKeydownProps`: the outer composed ref reaches both hooks' cells, the inner one first, and the outer handler's user handler is the inner hook's `onKeyDown` |
| Registry.GetKeydownProps | src/hooks/use-keydown-enter.ts:55-67 | registers `index` lazily (as Ensure) and returns the props for the registered ref |
| Events.KeyboardEvent.PreventDefault | src/hooks/use-keydown-enter.ts:76 | after the call the event's default is prevented |
| Events.AsciiLowerFolds | src/hooks/use-keydown-enter.ts:80 | lower-casing keeps the length, leaves no capital letter, maps each capital to the letter 32 code units above it, keeps every other character, and is idempotent |
| Events.IsEnterSpellings | src/hooks/use-keydown-enter.ts:80 | the key passes the test if and only if it is the five letters of "enter", each in either case |
| Events.InterceptEnter | src/hooks/use-keydown-enter.ts:76-93 | the intercepting branch prevents the default, then focuses exactly what FocusTarget names on the registry as it was |
| Events.CallUser | src/hooks/use-keydown-enter.ts:97-98 | the user's handler, if any, runs once; the event's default is prevented afterwards exactly when it was before or the handler prevents it |
| Events.HandledPreventDefault | src/hooks/use-keydown-enter.ts:75-76 | an intercepting handler calls `preventDefault` exactly once and first; a handler that does not intercept never calls it |
| Events.HandledFocus | src/hooks/use-keydown-enter.ts:90-92 | focus moves only when the handler intercepts, to the element the traversal yields, and at most once |
| Events.HandledUserLast | src/hooks/use-keydown-enter.ts:97-98 | the user's handler, if any, runs exactly once and last; without one, no user handler runs |
| Events.FocusNext | src/hooks/use-keydown-enter.ts:80-93 | the element focused is the one the registry's ref for the looked-up key holds, and only for an Enter key and a non-empty registry |
| LibraryHook.KeyDownEffectsGuard | src/hooks/use-keydown-enter.ts:67-99 | a prevented or composing event has no effect, and the user's handler does not run; `preventDefault` runs once, first, exactly when `nativeEvent.key` is "Enter" and the hook is enabled; focus moves at most once, only then, to the traversal's element; otherwise the user's handler runs exactly once, last |
| LibraryHook.KeydownEnter.constructor | src/hooks/use-keydown-enter.ts:52-53 | a new hook instance keeps its `isEnable` and starts with a new, empty, consistent registry |
| LibraryHook.KeydownEnter.OnKeyDown | src/hooks/use-keydown-enter.ts:67-99 | the handler's effects are those of KeyDownEffects (whose guard KeyDownEffectsGuard states) with the traversal outcome on the registry; the event's default is prevented afterwards exactly when it was before, the hook prevented it, or the user's handler ran and prevented it |
| LibraryHook.ForwardFromMiddle | src/hooks/use-keydown-enter.ts:75-93 | keys 0..4 all mounted: Enter on 2 prevents the default and focuses key 3's element |
| LibraryHook.BackwardFromFirst | src/hooks/use-keydown-enter.ts:84-85 | keys 0..4: Shift+Enter on 0 prevents the default and focuses nothing |
| LibraryHook.SkippedKeyFocusesNothing | src/hooks/use-keydown-enter.ts:87-92 | keys {0, 1, 3}: Enter on 1 prevents the default and focuses nothing |
| LibraryHook.TwelveKeysFocusKeyTwo | src/hooks/use-keydown-enter.ts:81-92 | keys 0..11: Enter on 9 focuses key 2's element |
| ExampleHook.KeyDownEffectsGuard | example/src/hooks/useKeydown.ts:57-86 | only a prevented event has no effect; `preventDefault` runs once, first, for every key when the hook is enabled and the event is not composing; focus moves at most once, only then, to the traversal's element; the user's handler runs exactly once, last, on every event not already prevented |
| ExampleHook.KeydownEnter.constructor | example/src/hooks/useKeydown.ts:42-43 | a new hook instance keeps its `isEnable` and starts with a new, empty, consistent registry |
| ExampleHook.KeydownEnter.OnKeyDown | example/src/hooks/useKeydown.ts:57-86 | the handler's effects are those of KeyDownEffects with the traversal outcome on the registry; the event's default is prevented afterwards exactly when it was before, the hook prevented it, or the user's handler ran and prevented it |
| ExampleHook.CopiesCompared | example/src/hooks/useKeydown.ts:58-63 | the copies have different effects if and only if the event is not already prevented and either the hook is enabled and a non-composing key other than Enter is pressed (prevented here, not there) or the event is composing and there is a user handler (run here, nothing there) |
| ExampleHook.TabIsSwallowed | example/src/hooks/useKeydown.ts:62-67 | with the hook enabled, Tab has its default prevented and moves no focus |
| ExampleHook.CapitalEnterTraverses | example/src/hooks/useKeydown.ts:67-80 | "ENTER" in capitals moves focus just as "Enter" does |

## Left out

- React's machinery is not modelled: `useRef`, `createRef`, `useCallback` and the re-rendering that each of them implies. One hook instance is a `KeydownEnter` object whose registry lives as long as the object does.
- DOM focus is recorded as a `Focus` effect, not performed. How React fills in `key`, `nativeEvent.key`, `isComposing` and `shiftKey` is left to the event's inputs.
- Callback refs are foreign code. Each one's return value is the input `reply`, and its calls are recorded by identity and by argument position. What else a callback does is not modelled. React 19's protocol of calling refs with null or calling their cleanups is not modelled.
- Keys are integers. Fractional, NaN and infinite `index` values are not modelled; those would need a full number-to-string conversion.
- Traversal.KeyString: it is JavaScript's `ToString` only for keys below 10^21 in magnitude. From 10^21 on, JavaScript prints exponent form (`1e+21`), which sorts differently: JavaScript puts 11 before 10^21, and the model puts 10^21 first. Integers above 2^53 are not exact in JavaScript, and the model does not round them.
- LibraryHook.KeydownEnter.OnKeyDown: the user's handler is foreign code and receives the event. Only whether it calls `preventDefault` is modelled, as the input `userPrevents`. Nothing else it does to the event is modelled, such as `stopPropagation`. When it is another hook's `onKeyDown`, that hook's own guard and traversal are not run here; the call is recorded as a `UserHandler` effect.
- ExampleHook.KeydownEnter.OnKeyDown: the same holds for the example copy's call of the user's handler.
- Registry.KeydownProps: a `ref` or `onKeyDown` prop of a kind React's types exclude is treated as absent. JavaScript does the following with such values:
  - a falsy `ref` (`0`, `""`) is skipped by `composeRefs`, as in the model;
  - a non-zero number or non-empty string `ref` throws a TypeError when `current` is assigned, because module code is strict;
  - a number or string `onKeyDown` throws a TypeError when called, because it is not a function;
  - a function given in the other slot, such as a composed ref passed as `onKeyDown`, runs in that role (a composed ref called with the event sets its cells' `current` to the event). The model does not capture this.
- `toLowerCase` is modelled for ASCII letters only, not full Unicode case mapping.
- The engine's sort algorithm is not modelled. Only its result is, which is unique for distinct keys.
- `userProps ?? {}` with null props is not modelled: the props always carry a numeric `index`. The TypeScript types, `example/src/App.tsx` and `tsup.config.ts` are not part of this model.
