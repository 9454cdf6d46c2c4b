# boomQueries element queries, modelled in Dafny

boomQueries keeps a registry of page elements, each given an ordered table
of `[minWidth, className]` breakpoints, and keeps each element's classes in
step with its rendered width. On every window resize, and after every
`add` or `refresh`, it re-checks every tracked element:

- it counts how many thresholds the element's `offsetWidth` meets;
- it removes the class names of every entry of the element's table;
- it adds the class names of the entry at index count − 1.

This project models that engine in `src/js/boomqueries.js`:

- the breakpoint resolution and class application;
- the registry (`nodes`, the selector `map`, `add`, `refresh`, `remove`, `get`);
- the resize coalescer `optimizedResize`;
- the `update` broadcast.

Files, one module each:

- `wrappers.dfy` (`Wrappers`): `Option`, standing for `null`/`undefined`.
- `seqs.dfy` (`Seqs`): order-preserving `Filter` and `Distinct`, with their lemmas.
- `tokens.dfy` (`ClassTokens`): `split(' ')` and the tokens a class name adds or removes.
- `breakpoints.dfy` (`Breakpoints`): a table, its resolution, and the class set after a check or a cleanup.
- `dom.dfy` (`Dom`): class `Page`, the element state the engine writes (the class list and the `breaks` and `selector` properties it sets on elements), plus the host's layout answers.
- `registry.dfy` (`Registry`): class `ElementRegistry`, holding `nodes` and `map` (named `selectors` here, since `map` is a Dafny keyword).
- `resize.dfy` (`Resize`): class `Scheduler`, the `running` flag and the callback list.
- `boomqueries.js`'s load-time wiring (`optimizedResize.add(update)`) is `boomqueries.dfy` (`BoomQueries`): class `Engine`.

Modelling choices:

- An element is a handle (`Elem`, a natural number). The page's elements are never owned.
- `nodes` holds the handles, as the source holds the DOM nodes.
- A record's table and name are the element's `breaks` and `selector` properties, kept in `Page`. So "already tracked" means "carries a table", exactly as the test `node.breaks === undefined` at line 183 reads it.
- `_delete` never clears `breaks`. So an evicted element is never tracked again by a later `add` or `refresh` (`Registry.EvictedNeverReturns`).
- The host is a parameter `Host` of four total functions: `querySelectorAll`, `document.body.contains`, `offsetParent !== null` and `offsetWidth`. Each operation sees one snapshot of them.
- Class lists are sets of strings. `addClass`/`removeClass` are the `classList` path: the name is split on single spaces and empty pieces are skipped.
- The custom events become direct calls:
  - `update` calls `CheckYourself` on each record in order;
  - `_delete` calls `Cleanup`;
  - `CheckYourself` returns the `boomQueries_nodeUpdated` detail (`offsetWidth`, `currentBreak`) as its result.
- `add`'s first argument is a variant: `BySelector`, `ByElement` or `ByElements`.
- Line 222 compares `name` with the string `'undefined'`, so a name that is that exact string does not tag the element (`Registry.NameTag`).
- A resize callback is a handler id. The deferred run returns the ids it invoked, in order. The engine's own callback (line 134) runs `update`.

## Model

| member | source | states |
|---|---|---|
| `ClassTokens.Split` | src/js/boomqueries.js:77 | `split(' ')` yields at least one piece and no piece contains a space |
| `ClassTokens.SplitJoin` | src/js/boomqueries.js:77 | joining the pieces of a split with spaces gives back the class name |
| `ClassTokens.JoinSplit` | src/js/boomqueries.js:77 | splitting space-free pieces joined by spaces gives back the pieces |
| `ClassTokens.SplitConcat` | src/js/boomqueries.js:93 | splitting at a space splits each side independently |
| `ClassTokens.SplitNoSpace` | src/js/boomqueries.js:93 | a name without spaces splits into itself alone |
| `ClassTokens.TokensAreNames` | src/js/boomqueries.js:77-79 | every token added or removed is non-empty and has no space |
| `ClassTokens.TokensOfName` | src/js/boomqueries.js:77-79 | a single class name is its own only token |
| `ClassTokens.TokensConcat` | src/js/boomqueries.js:93-95 | a multi-word class name adds or removes the tokens of each word |
| `Breakpoints.CountMet` | src/js/boomqueries.js:147-150 | the number of met thresholds is at most the table's length |
| `Breakpoints.Resolve` | src/js/boomqueries.js:143-154 | the chosen index (count − 1), when there is one, is a position of the table |
| `Breakpoints.CountMetZero` | src/js/boomqueries.js:148-154 | for any table, nothing is chosen exactly when the width is below every threshold (so an empty table chooses nothing) |
| `Breakpoints.SortedMetPrefix` | src/js/boomqueries.js:147-150 | in an ascending table, entry j is met (inclusive `>=`) exactly when j < the count |
| `Breakpoints.ResolveSorted` | src/js/boomqueries.js:143-156 | in an ascending table the chosen entry is the last whose threshold the width meets, and none is chosen exactly when the width is below all |
| `Breakpoints.CountMetMonotone` | src/js/boomqueries.js:147-150 | a wider element never resolves to an earlier entry |
| `Breakpoints.ResolveExamples` | src/js/boomqueries.js:143-162 | an ascending three-entry table resolves 50, 100, 299, 300 and −1 to a, b, b, c and nothing |
| `Breakpoints.TableTokensAppend` | src/js/boomqueries.js:174-176 | the tokens of a concatenated table are the union of each part's tokens |
| `Breakpoints.TableTokensMembers` | src/js/boomqueries.js:151 | a class is a table token exactly when some entry's class name yields it |
| `Breakpoints.ChosenTokens` | src/js/boomqueries.js:154-156 | the chosen entry's tokens are among the table's tokens |
| `Breakpoints.CheckedEffect` | src/js/boomqueries.js:147-156 | after a check the element carries, of its table's tokens, exactly the chosen entry's; every other class is untouched |
| `Breakpoints.CheckedIdempotent` | src/js/boomqueries.js:147-156 | checking twice at the same width gives the same class set as checking once |
| `Breakpoints.CheckedAfterCleanup` | src/js/boomqueries.js:172-177 | a check after a cleanup gives the same class set as the check alone |
| `Breakpoints.CleanedIsClean` | src/js/boomqueries.js:172-177 | a cleaned element carries none of its table's tokens, and cleaning again changes nothing |
| `Dom.CheckedForIdempotent` | src/js/boomqueries.js:142-156 | a second check against the same layout, with or without an offset parent, changes nothing |
| `Dom.Page.constructor` | src/js/boomqueries.js:183 | a fresh page has the given class lists and no element carries `breaks` or `selector` |
| `Dom.Page.AddClass` | src/js/boomqueries.js:74-87 | the element gains exactly the tokens of the class name; no other element and no property changes |
| `Dom.Page.RemoveClass` | src/js/boomqueries.js:90-103 | the element loses exactly the tokens of the class name; no other element and no property changes |
| `Dom.Page.CheckYourself` | src/js/boomqueries.js:138-170 | with an offset parent: old classes minus every table token plus the chosen entry's tokens, and the notice carries the width and the matched entry; without one: nothing changes and no notice |
| `Dom.Page.Cleanup` | src/js/boomqueries.js:172-177 | the element loses every token of every entry of its table; nothing else changes |
| `Registry.AttachWellFormed` | src/js/boomqueries.js:181-199 | `_add` keeps every tracked element carrying a table and tracked once |
| `Registry.AttachAllFacts` | src/js/boomqueries.js:202-211 | adding a sequence appends exactly the elements without a table, keeps the old records as a prefix, never replaces an attached table, and tags only the newly attached elements |
| `Registry.AttachTwice` | src/js/boomqueries.js:183 | adding the same element twice leaves exactly one record of it, with the first table |
| `Registry.EvictedNeverReturns` | src/js/boomqueries.js:183 | an evicted element still carries its table, so no later add tracks it again |
| `Registry.RediscoveredStep` | src/js/boomqueries.js:240-243 | rediscovering one more selector keeps every earlier effect of the pass and adds the selector's undiscovered-before elements with its table and tag |
| `Registry.ElementRegistry.constructor` | src/js/boomqueries.js:15-19 | the registry starts with no records and an empty selector map |
| `Registry.ElementRegistry.AddNode` | src/js/boomqueries.js:181-199 | `_add` does nothing to an element with a table; otherwise it attaches the table, tags a non-null name and appends one record; the map and all classes are unchanged |
| `Registry.ElementRegistry.AddEach` | src/js/boomqueries.js:208-210 | the `_add` loop leaves the tracking state of `_add` applied to each element in order |
| `Registry.ElementRegistry.AddSelector` | src/js/boomqueries.js:202-211 | `map[selector]` is set or overwritten, and each discovered element is added with the selector as its name |
| `Registry.ElementRegistry.Add` | src/js/boomqueries.js:217-232 | registers the selector's, element's or array's elements with the selector or name as tag, then every tracked element is re-checked (every other element is unchanged) |
| `Registry.ElementRegistry.Update` | src/js/boomqueries.js:123-132 | each tracked element gets the class set of one check against the host; untracked elements are untouched |
| `Registry.ElementRegistry.Delete` | src/js/boomqueries.js:249-256 | the record at position i is cleaned and spliced out; the rest keep their order |
| `Registry.ElementRegistry.Evict` | src/js/boomqueries.js:263-279 | the reverse splice loop keeps exactly the records `keep` accepts, in their order, and cleans each one it drops |
| `Registry.ElementRegistry.Remove` | src/js/boomqueries.js:259-280 | with a key: evicts exactly the records named by it, keeps the rest in order, deletes `map[key]`, and leaves no table token on an evicted element; without a key: evicts exactly the detached records |
| `Registry.ElementRegistry.Rediscover` | src/js/boomqueries.js:240-243 | rediscovery adds exactly the discovered elements that carry no table, keeps the old records as a prefix, leaves attached tables and the map unchanged, keeps every existing tag, and gives each new element the table and the tag of a selector that discovered it |
| `Registry.ElementRegistry.Refresh` | src/js/boomqueries.js:235-246 | afterwards an element is tracked exactly when it was tracked and is attached, or carried no table and is discovered by a stored selector; the map and every surviving element's tag are unchanged, and each newly tracked element carries the table and the tag of a selector that discovered it; with attached-only discovery no detached record remains |
| `Registry.ElementRegistry.Get` | src/js/boomqueries.js:282-289 | returns the element of the last record with that name, or nothing exactly when no record has it |
| `Resize.Scheduler.constructor` | src/js/boomqueries.js:25-26 | no callbacks, idle, not listening |
| `Resize.Scheduler.Resize` | src/js/boomqueries.js:29-41 | schedules a deferred run exactly when idle, and is pending afterwards |
| `Resize.Scheduler.RunCallbacks` | src/js/boomqueries.js:44-51 | invokes every callback once, in registration order, then is idle |
| `Resize.Scheduler.AddCallback` | src/js/boomqueries.js:54-60 | appends the callback, or ignores a falsy one |
| `Resize.Scheduler.Add` | src/js/boomqueries.js:64-69 | attaches the resize listener when no callback is registered yet, then adds the callback |
| `Resize.ResizeBurst` | src/js/boomqueries.js:29-41 | any number of resize signals before the run fires schedules one run if idle and none if a run is pending |
| `BoomQueries.Engine.constructor` | src/js/boomqueries.js:134-136 | loading the module registers `update` as the only callback, with the scheduler idle and listening |
| `BoomQueries.Engine.Frame` | src/js/boomqueries.js:44-51 | the deferred run invokes the callbacks in order; if `update` is among them, every tracked element is checked once (repeats change nothing); tags and the `listening` flag are unchanged |

`Resize.ResizeBurst` is a client of the scheduler, not code of the source.
It states, for every length of a burst of signals, what repeated `resize`
calls do.

## Left out

- The UMD loader wrapper (lines 1-12): loader plumbing with no behaviour of its own.
- The `CustomEvent` polyfill and the `addEventListener`/`removeEventListener`/`dispatchEvent` wiring (lines 105-120, 127-131, 165-168, 192-194, 251-253) are not modelled. They are replaced by direct calls. "No zombies" becomes: `update` touches only elements in `nodes`.
- `update`'s optional payload (line 126) only decorates the event, so it is not modelled.
- The `boomQueries_nodeUpdated` notice is returned by `CheckYourself`; `Update` discards it, since nothing in the engine reads it.
- `window.addEventListener`, `requestAnimationFrame` and the 66 ms `setTimeout` (lines 34-38, 66) are host I/O and timing. What remains is the `scheduled` result, the `running` flag and the `listening` flag. The DOM ignores a second registration of the same listener, so `listening` is a flag, not a count.
- Scheduler callbacks other than `update` are opaque handler ids whose effects are not modelled. A callback that re-enters the registry is not modelled.
- The `className` string fallbacks of `addClass` and `removeClass` (lines 83, 99) rest on RegExp semantics for browsers without `classList`, so they are not modelled.
- `inspect` (lines 293-298) only writes to the console.
- Host queries are a fixed snapshot for one operation: the model does not capture an element's `offsetWidth` changing because earlier elements of the same `update` pass changed class.
- `Registry.ElementRegistry.AddSelector`: `querySelectorAll` throws `SyntaxError` for an invalid selector (such as `''` or `'!!!'`), after `map[selector]` has already been written (lines 204-207). That throw is not modelled: `Host.discover` is total. In the source the selector stays stored in `map`, and `add` never reaches its `update()` (line 231).
- `Registry.ElementRegistry.Refresh`: with such an invalid selector stored in `map`, every later `refresh` throws when its `forEach` reaches that key (lines 241-243). The keys after it are not rediscovered and the `update()` at line 245 does not run, until `remove` deletes the key. The model always rediscovers every stored selector and then checks every element; `Registry.ElementRegistry.Rediscover` and `Registry.ElementRegistry.Add` share this gap.
- `Registry.ElementRegistry.AddSelector`: `map` is a plain object (line 19), and two keys act on it unlike a map entry. `add('__proto__', t)` runs the `__proto__` setter (line 204): it replaces `map`'s prototype and stores no entry, so `Object.keys` at line 240 leaves the key out and `refresh` never rediscovers it. The model stores it like any other key. `Registry.ElementRegistry.Add` and `Registry.ElementRegistry.Refresh` share this gap.
- `Registry.ElementRegistry.Remove`: once `add('hasOwnProperty', t)` has stored an own property that hides `Object.prototype.hasOwnProperty`, every `remove(key)` evicts its records (lines 264-268) and then throws `TypeError` at line 271. So `map[key]` is never deleted, and a later `refresh` rediscovers the removed selector. `remove('__proto__')` never deletes anything from `map` either. The model deletes the key and returns normally.
- `Registry.ElementRegistry.Refresh`: `Object.keys(map)` enumeration order is not modelled. Keys are taken in an unspecified order, so the contract fixes which records exist and that the survivors come first, not the order of the appended records.
- When `add` gets no name, the source sets the element's `selector` to `undefined`; the model leaves it untagged. Both read back as `undefined`, so no operation (`get` included) can tell them apart. `get()` called with no argument is not modelled (`Get` takes a string).
- `add` with a NodeList: the source treats anything that is not a string or an Array as one element. The model's target is a selector, one element, or an array.
- A falsy class name (lines 75, 91) adds and removes nothing, which the model's empty string matches. A truthy class name that is not a string makes `.split` throw; that throw is not modelled.
- `currentBreak` read at index −1 yields `undefined`; the notice carries `None` there.
- `Dom.Page.AddClass`: `classList.add` throws `InvalidCharacterError` for a token containing a tab, line feed, form feed or carriage return. That throw is not modelled; such a token is added as given.
- `Dom.Page.RemoveClass`: `classList.remove` throws the same way. That throw is not modelled, so neither is its partial effect in `_checkYourself`: some classes already removed, the chosen class not added, and no `boomQueries_nodeUpdated` notice.
- `Dom.Page.Cleanup`, `Registry.ElementRegistry.Remove`: the same throw inside `_cleanup` (lines 174-176) stops the cleanup partway, but it does not reach `_delete` (line 251), which still splices the element out. So in the source an evicted element whose table has such a class name can keep table tokens; the model cleans it fully.
- `Breakpoints.CountMet`: thresholds are JavaScript numbers and may be fractional; the model uses `int`. Against an integer `offsetWidth`, a fractional threshold t behaves like ⌈t⌉.
- `_delete`'s `return true` is never used by a caller, so it is not modelled.
