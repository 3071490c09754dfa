# Alexa request dispatch and attribute groups, modelled in Dafny

This project models two parts of a voice-assistant skill backend (the
Internet Archive voice apps):

- **The Alexa handler builder** (`functions/src/platform/alexa/handler/handlers-builder.js`).
  It resolves an incoming request to a registered action with a fixed
  fallback chain. First the raw intent name. Then the intent name with
  `AMAZON.` and `Intent` stripped. Then the request type with `AudioPlayer.`
  stripped, if there is a request type. Last, the name with its trailing
  `_`-segments dropped one at a time. The builder also turns the action map
  into the ordered list of `{intent, canHandle, handle}` entries, ending with
  a catch-all entry. One turn of a handler is modelled too: fetch the
  attributes (a failure gives `{}`), run the handler, store the attributes.
- **Attribute groups** (`functions/src/state/helpers.js`).
  `group(name, defaults)` gets and sets one key of the user's persisted
  data. `SubGroup` nests such a view one key deeper and writes by
  read-merge-write. The data lives in `app.persist` (an abstract key-value
  store) when the context has it, or else in the legacy mutable object
  `app.user.storage`.

Files:

- `js.dfy` (module `Js`): JavaScript values, falsiness, `x || d`, and `Option`/`Result`.
- `segments.dfy` (module `Segments`): `split('_')` and `join('_')` and their round trips.
- `handlers_builder.dfy` (module `HandlersBuilder`): the name rewrites and the resolver.
  The resolver is the method `FindHandlersByInput`; its segment-dropping loop is
  the method `PopSegments`. Both are proved against the function `Resolve`, which
  is the first hit in an ordered list of candidate names. The file also holds the
  exported entry list, `canHandle`, and the turn model.
- `state_helpers.dfy` (module `StateHelpers`): the accessors. `Group` and `SubGroup`
  are a datatype `Accessor`. Its pure `Read` is `getData` and its pure `Write` is
  `setData`, both over a snapshot of the context. The class `App` holds the mutable
  stores, and the method `Accessor.SetData` updates them in place. `SetData` is
  proved to leave exactly the state `Write` describes, and to leave the state
  unchanged when it throws.

Behaviour of the code that is easy to misread (the model follows the code):

- Only the namespaces `AMAZON.` (with suffix `Intent`) and `AudioPlayer.` are stripped.
  Another namespace is left as it is.
- With neither an intent name nor a request type, resolution does not return "no match".
  The code calls `name.split` on `undefined`, which throws. This is the outcome
  `NameUndefined`. It does not happen if `camelToKebab(undefined)` happens to be a
  registered action.
- The truncation loop stops when one segment is left. That segment can be empty, so a
  name starting with `_` (`_Foo`) leads to a lookup of `""`. `TruncationsEmptyIff`
  states exactly when this happens.
- Every Alexa request carries a `request.type` (for example `IntentRequest`). So the name
  that gets truncated is the stripped request type, never the intent name: a custom
  intent `Foo_Bar` does not fall back to an action `Foo`.
  `IntentNameNotTruncatedWithRequestType` and `IntentNameTruncatedWithoutRequestType`
  show both cases.
- Reads use `||`, so a stored falsy value (`0`, `""`, `false`, `null`) also gives the default.
- A getter called with `null`/`undefined` throws a TypeError (reading `app.persist`),
  not the "should be DialogflowApp object" error. A `SubGroup` setter reads its parent
  first, so with a falsy `app` it throws that TypeError too.
- Attributes are stored only after the handler's promise resolves. A rejected handler
  skips the store (`Promise.all` rejects), and a rejected save rejects the turn.

## Model

| member | source | states |
|---|---|---|
| `HandlersBuilder.StripAmazonIntent` | functions/src/platform/alexa/handler/handlers-builder.js:12-19 | If the name matches `^AMAZON\.(.*)Intent$` (some `x` without line terminators, with name == `AMAZON.` + x + `Intent`), the result is that `x`; any other name comes back unchanged |
| `HandlersBuilder.StripRequestType` | functions/src/platform/alexa/handler/handlers-builder.js:21-28 | If the request type matches `^AudioPlayer\.(.*)$`, the result is the captured rest; any other request type comes back unchanged |
| `HandlersBuilder.StripAmazonIntentInverse` | functions/src/platform/alexa/handler/handlers-builder.js:12-19 | Stripping `AMAZON.` + x + `Intent` gives back x, for every x without line terminators |
| `HandlersBuilder.StripRequestTypeInverse` | functions/src/platform/alexa/handler/handlers-builder.js:21-28 | Stripping `AudioPlayer.` + x gives back x, for every x without line terminators |
| `HandlersBuilder.IndexOf` | functions/src/platform/alexa/handler/handlers-builder.js:68 | `actions.get(key)` finds the first (in a Map, the only) entry with that key, and every earlier entry has another key |
| `HandlersBuilder.HitIndex` | functions/src/platform/alexa/handler/handlers-builder.js:67-102 | The first candidate name whose lookup hits: every earlier one misses, and this one hits unless none does |
| `HandlersBuilder.FindHandlersByInput` | functions/src/platform/alexa/handler/handlers-builder.js:63-105 | Returns `Resolve`: the first hit among the raw intent name, the stripped intent name, the stripped request type (only when one is present), then the truncations. It throws when the name to truncate is `undefined`. The ghost trace of lookups is a prefix of that candidate list that stops at the first hit. Every looked-up name before the last missed, and the returned name is the last one looked up |
| `HandlersBuilder.PopSegments` | functions/src/platform/alexa/handler/handlers-builder.js:90-104 | The loop pops one segment per round while more than one is left. It returns the first truncation that hits, or `null`, and its lookups are exactly the truncations up to that hit |
| `HandlersBuilder.Lookup` | functions/src/platform/alexa/handler/handlers-builder.js:68 | `actions.get(key)` is defined exactly when some entry has that key, and then it is the handlers of the first (in a Map, the only) entry with that key |
| `HandlersBuilder.Resolve` | functions/src/platform/alexa/handler/handlers-builder.js:63-105 | The result of `findHandlersByInput`. A returned `{handlers, name}` has `handlers == actions.get(camelToKebab(name))`, and `name` is one of the names resolution tries. A throw happens only when there is no name to truncate and every early name missed |
| `HandlersBuilder.FirstHitAppend` | functions/src/platform/alexa/handler/handlers-builder.js:67-102 | Trying one list of names and then another finds the first hit of the first list, or else the first hit of the second |
| `HandlersBuilder.ResolveIsFirstAttempt` | functions/src/platform/alexa/handler/handlers-builder.js:63-105 | Resolution returns the first hit over the whole ordered list of candidate names. With no hit, it throws iff there is no name to truncate and returns `null` otherwise |
| `HandlersBuilder.ResolveTriesInOrder` | functions/src/platform/alexa/handler/handlers-builder.js:67-88 | A hit on the raw intent name wins. Else a hit on the stripped intent name wins. Else, with a request type present, a hit on the stripped request type wins, with that stripped name returned |
| `HandlersBuilder.ResolveThrowsIff` | functions/src/platform/alexa/handler/handlers-builder.js:81-90 | Resolution throws exactly when there is no intent name, no (truthy) request type, and `camelToKebab(undefined)` is not registered |
| `HandlersBuilder.ResolveTruncatesBase` | functions/src/platform/alexa/handler/handlers-builder.js:81-100 | Once the early names miss, a hit is one of the truncations of the stripped request type when a request type is present. Otherwise it is one of the truncations of the stripped intent name |
| `HandlersBuilder.RequestTypeStopsTruncation` | functions/src/platform/alexa/handler/handlers-builder.js:81-104 | With a non-empty request type whose stripped form has no `_`, and every early name missing, resolution returns `null`. The intent name is not truncated, however many segments it has |
| `HandlersBuilder.IntentNameNotTruncatedWithRequestType` | functions/src/platform/alexa/handler/handlers-builder.js:81-104 | With only `Foo` registered, the intent `Foo_Bar` sent as an `IntentRequest` resolves to `null` |
| `HandlersBuilder.IntentNameTruncatedWithoutRequestType` | functions/src/platform/alexa/handler/handlers-builder.js:74-100 | With only `Foo` registered and no request type, the intent `Foo_Bar` is truncated and resolves to `Foo` |
| `HandlersBuilder.TruncationsShape` | functions/src/platform/alexa/handler/handlers-builder.js:90-102 | A name with k segments gives exactly k-1 truncations. Each is a strictly shorter prefix ending right before a `_`, and it splits into the first segments of the name. Each truncation is shorter than the one before |
| `HandlersBuilder.AttemptsCount` | functions/src/platform/alexa/handler/handlers-builder.js:67-102 | Resolution makes at most 2 early lookups, or at most 3 with a non-empty request type. The truncation base then adds at most one lookup per `_` in it. These are upper bounds, because the lookups stop at the first hit |
| `HandlersBuilder.TruncationsEmptyIff` | functions/src/platform/alexa/handler/handlers-builder.js:90-98 | The loop looks up the empty name exactly when the name starts with `_` |
| `HandlersBuilder.LeadingUnderscoreLooksUpEmpty` | functions/src/platform/alexa/handler/handlers-builder.js:90-98 | For `_Foo` the only truncation looked up is `""` |
| `Segments.Split` | functions/src/platform/alexa/handler/handlers-builder.js:90 | `split('_')` gives one segment more than there are `_`, and no segment contains `_` |
| `Segments.JoinSplit` | functions/src/platform/alexa/handler/handlers-builder.js:90-95 | `name.split('_').join('_') == name` |
| `Segments.SplitJoin` | functions/src/platform/alexa/handler/handlers-builder.js:90-95 | Splitting the join of `_`-free segments gives the segments back |
| `Segments.JoinSplitAt` | functions/src/platform/alexa/handler/handlers-builder.js:94-95 | Joining the first j segments gives a prefix of the whole join, followed by `_` and the join of the rest |
| `HandlersBuilder.Build` | functions/src/platform/alexa/handler/handlers-builder.js:114-170 | A missing action map gives `{}`. Otherwise there is one entry per map entry, in map order, with `intent = kebabToCamel(name)` and that entry's handlers, followed by the catch-all |
| `HandlersBuilder.IntentCanHandle` | functions/src/platform/alexa/handler/handlers-builder.js:126-147 | An action entry's `canHandle` accepts only a request with a non-empty intent name or request type. The entry's intent must then be the stripped intent name or the stripped request type, which are names resolution also tries |
| `HandlersBuilder.CanHandleByIntentName` | functions/src/platform/alexa/handler/handlers-builder.js:127-135 | With an intent name present, `canHandle` is `stripAmazonIntent(intentName) == intent`, and the request type does not matter |
| `HandlersBuilder.CanHandleByRequestType` | functions/src/platform/alexa/handler/handlers-builder.js:137-146 | Without an intent name, `canHandle` holds iff a request type is present and its stripped form equals `intent`. With neither present it is false |
| `HandlersBuilder.CanHandleExclusive` | functions/src/platform/alexa/handler/handlers-builder.js:126-147 | Two entries with different intents never both accept the same request |
| `HandlersBuilder.BuiltListAcceptsEverything` | functions/src/platform/alexa/handler/handlers-builder.js:167-170 | Every request is accepted by some entry of a built list, at the latest by the catch-all |
| `HandlersBuilder.FetchAttributes` | functions/src/platform/alexa/handler/handlers-builder.js:38-46 | A failed fetch yields `{}`; a successful one yields the fetched attributes |
| `HandlersBuilder.FetchFailureIsEmpty` | functions/src/platform/alexa/handler/handlers-builder.js:38-46 | A turn whose fetch fails behaves exactly like a turn that fetched `{}` |
| `HandlersBuilder.Handle` | functions/src/platform/alexa/handler/handlers-builder.js:149-164 | The turn responds iff the handler resolves and the save resolves. The stored attributes are the serialised attributes the handler left. A rejecting handler fails the turn before anything is stored |
| `HandlersBuilder.CatchAllHandle` | functions/src/platform/alexa/handler/handlers-builder.js:172-197 | No match resolves with nothing (no fetch, no store). An `undefined` name throws. A match runs the turn with exactly the resolved handlers |
| `StateHelpers.GroupRead` | functions/src/state/helpers.js:51-66 | `group(name, defaults).getData(app)` succeeds exactly on a context with a store. It then reads `store[name] || defaults` from the store the context selects: `app.persist` when set, else `app.user.storage` |
| `StateHelpers.GroupWrite` | functions/src/state/helpers.js:74-90 | `group(name, defaults).setData(app, x)` succeeds exactly on a context with a store. It sets `store[name] = x` in the store the context selects and keeps the backend choice. With `app.persist` set, `app.user` is unchanged |
| `StateHelpers.Accessor.Read` | functions/src/state/helpers.js:21-66 | `getData` at any depth succeeds only on a context with a store. It yields a truthy value or the accessor's default |
| `StateHelpers.Accessor.Write` | functions/src/state/helpers.js:25-90 | `setData` at any depth succeeds only on a context with a store, and keeps the backend choice. The store's keys afterwards are the old keys plus the accessor's top-level group name |
| `StateHelpers.MakeGroup` | functions/src/state/helpers.js:44 | `group(name)` with an omitted or `undefined` default uses `{}`. Any other default is kept, and the result has no `undefined` default |
| `StateHelpers.MakeSubGroup` | functions/src/state/helpers.js:15-19 | `new SubGroup(name, parent)` with an omitted or `undefined` default uses `{}`. Any other default is kept, and over a well-formed parent no default along the chain is `undefined` |
| `StateHelpers.WellFormedReadDefined` | functions/src/state/helpers.js:21-66 | An accessor built with JavaScript's default parameters never reads `undefined`, and it reads `null` only when its own default is `null` |
| `StateHelpers.OmittedDefaultsRead` | functions/src/state/helpers.js:15-23 | A sub-group with default `"d"`, under a group created without a default, reads `"d"` on an empty store |
| `StateHelpers.Accessor.SetData` | functions/src/state/helpers.js:25-90 | On a live context, leaves exactly the state `Write` describes. It throws with `Write`'s error, and then leaves the context unchanged |
| `StateHelpers.ReadRejectsBadApp` | functions/src/state/helpers.js:51-56 | Every getter, nested or not, throws the invalid-app error on a string `app` and a TypeError on a falsy one |
| `StateHelpers.WriteRejectsBadApp` | functions/src/state/helpers.js:74-78 | Every setter throws the invalid-app error on a string `app`. On a falsy `app`, a group setter throws the invalid-app error, and a sub-group setter throws the TypeError of its parent read |
| `StateHelpers.LegacyWithoutStorageRejects` | functions/src/state/helpers.js:60-88 | Without `app.persist`, a missing `app.user.storage` makes every getter and setter throw the missing-data error, and a missing `app.user` makes them throw a TypeError |
| `StateHelpers.PersistBackendIgnoresUser` | functions/src/state/helpers.js:56-82 | When `app.persist` is set, reads do not depend on `app.user`, and writes leave `app.user` unchanged |
| `StateHelpers.WriteIsSinglePut` | functions/src/state/helpers.js:80-89 | A successful write needs a context with `app.persist` or `app.user.storage`. It is one put under the accessor's top-level group name, into the backend the context selects. For a group, the value put is exactly `x`, even a falsy one (`storage[name] = value`) |
| `StateHelpers.PutKeepsOtherKeys` | functions/src/state/helpers.js:80-89 | A put keeps the backend choice. It stores the value under its key and leaves every other key of that store, and the other backend, unchanged |
| `StateHelpers.ReadAfterWrite` | functions/src/state/helpers.js:21-33 | After a successful write of v, the same accessor (group or sub-group at any depth) reads `v || default` |
| `StateHelpers.ReadAfterWriteTruthy` | functions/src/state/helpers.js:21-33 | A truthy value written through an accessor reads back unchanged |
| `StateHelpers.SubGroupWriteMerges` | functions/src/state/helpers.js:25-33 | A sub-group write reads the parent's data first and hands the parent a copy with only its own key replaced. All other keys of that data are kept |
| `StateHelpers.ReadIgnoresOtherRoots` | functions/src/state/helpers.js:51-66 | An accessor's read depends only on its own top-level group key: a put under another key leaves it unchanged |
| `StateHelpers.GroupsIndependent` | functions/src/state/helpers.js:74-90 | Writing through one accessor never changes what an accessor under a different top-level group reads |
| `StateHelpers.SiblingSubGroupsIndependent` | functions/src/state/helpers.js:26-31 | Two sub-groups with different names under one parent do not clobber each other. This needs the parent's data not to be `null`. By `WellFormedReadDefined`, that data is `null` only when the parent's default is an explicit `null`, and never `undefined` |
| `StateHelpers.SiblingOfNullParent` | functions/src/state/helpers.js:21-31 | With a `null` parent value, a sibling's read changes: it throws before the write and returns its default after it |

## Left out

- `camelToKebab`, `kebabToCamel` and `fsm.selectHandler` are not part of this model. The first two are function parameters, and no round trip is assumed. Selecting and running the handler is one parameter `run` of the turn model. `camelToKebab` is taken to return for every argument, `undefined` included (lines 68 and 75 pass it `undefined` for every request without an intent name). A throw there is not modelled.
- The Alexa SDK's dispatch (which entry's `handle` it calls) is outside this code. Only the existence of an accepting entry is stated.
- Promise orchestration is reduced to outcomes: `getPersistentAttributes`, `setPersistentAttributes`, `savePersistentAttributes`, `jsonify`, the `App` constructor and `responseBuilder.getResponse` are foreign calls. The fetch result, `jsonify` and whether the save resolves are parameters. The response itself is not modelled.
- The catch-all entry names its function `handler`, not `handle` (line 172). The model keeps it as the catch-all's handling function and does not model what the SDK does with the misspelt key.
- `debug`, `console.log` and `util.inspect` are logging with no effect on behaviour; error message texts are reduced to their kind.
- `functions/index-alexa.js` (startup, loading actions from files, logging) is wiring and is not modelled.
- The internals of `app.persist.getData`/`setData` are not shown; the persist backend is a key-to-value map whose missing keys read as `undefined`.
- JavaScript numbers are integers here: `NaN` and `-0` (both falsy) are not modelled. Arrays are not modelled as values.
- `Object.assign` copies the indexed characters of a string source. `StateHelpers.Merge` keeps only the fields of an object source. A property read on a string (`"abc".length`) is modelled as `undefined`.
- Values are immutable here. `getData` returns the stored object, or the single default object, by reference (helpers.js:22, :57, :65). `storage[name] = value` stores the caller's object (helpers.js:89), and the `Object.assign` copy is one level deep. Mutation through such a reference is not modelled. That includes a change to a default object, which every later read of an empty store would see.
- Property reads see an object's own keys only. Names inherited from `Object.prototype` are not modelled. With them, a group or sub-group named `constructor` or `toString` would read a function instead of its default, and `Object.assign` with the key `__proto__` would set a prototype instead of storing a key.
- `Group` and `SubGroup` take their default after JavaScript has filled in `{}` for an omitted or `undefined` argument. `MakeGroup` and `MakeSubGroup` do that filling. A hand-built `Group(name, Undefined)` is not a value JavaScript can produce.
- A context argument that is a truthy non-object (such as a number), a truthy non-object `app.user.storage`, and a handler list that is falsy are not modelled.
