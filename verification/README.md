# html-widgets core, in Dafny

html-widgets attaches named "widget" handlers to page elements that carry a
widget-name attribute and keeps a registry of the live instances. This
project models its sequential core and proves properties of it:

- **Attribute-value coercion** (`convertType`, module `Codec`). The function
  chooses its branch from the string alone: bracketed text goes to
  `JSON.parse` after a quote swap, then the three keywords, then number-like
  text, then the string itself. `JSON.parse`, `isNaN` and `parseFloat` are
  function values of a `Host` record over opaque result types. The two
  copies in `src/utils.ts` and `src/helpers/utils.ts` are the same text, so one
  definition models both.
- **Prop extraction and attribute writing** (`collectProps` and `createWidget`,
  module `Props`, on top of `Dom.SetAttribute`). The two are proved to be a
  round trip.
- **Naming in the class-based dispatcher** (`snakeToCamel`,
  `COMPONENT_SELECTOR` and `getComponentsNames` of `src/index.js`, module
  `Naming`, with `Text.Trim`).
- **The instance constructors** of `src/WidgetInstance.ts` and
  `src/helpers/WidgetInstance.ts` (module `Widget`). A constructor is the
  ordered list of effects it has, followed by the instance it yields or the
  error it throws.
- **The state hooks** `useState` and `useDebouncedState` (module `Membrane`).
  The debounce timer is a machine driven by mutation and clock events. It is
  proved to agree with a reference reading of "one call per burst followed by
  `delay` quiet time".
- **The widget lifecycle** of the three observers, `src/Observer.ts`,
  `src/helpers/Observer.ts` and `src/index.js` (module `Registry`). They are
  one state machine, parameterised by the choices in which they differ:
  - which attribute holds the widget name;
  - where ids are read and where they are written;
  - whether ids are stamped during discovery (index.js) or by the instance
    constructor;
  - whether removal looks at descendants;
  - which names take the asynchronous import path;
  - whether a non-childList mutation record ends its batch.

  Module `Lifecycle` proves the "id invariant" (`Lifecycle.Fresh`) for every
  variant whose early stamping writes the id it checks. The invariant says:
  - every id on the page or in the log came from the oracle;
  - no two elements carry the same id at one place;
  - the registry is exactly the ids registered and not yet torn down;
  - no id is registered twice or torn down twice;
  - under early stamping, each pending element carries an unregistered id.

  An instance is "bound" (`Binding.Bound`) when its element carries its id
  where discovery checks. Module `Binding`
  proves "at most one live instance per element" and idempotent discovery
  where they hold. Module `Traces` gives the runs where they do not hold.

The page is abstract. An element is a handle with its ancestors, its
author-written attributes and the ids the library stamped on it. The random
id generators (`nanoid`, `shortid`) are a counter that never repeats. Which
handlers and destroy hooks throw and how imports settle are chosen by the
environment, step by step. A destroy hook that throws ends its mutation
batch; the TypeScript observers then keep the instance registered, while
index.js has already deleted it (`Traces.ThrowingDestroyEndsBatch`).

Where the lifecycle invariants fail, the model shows it with runs from small
pages:

- `src/Observer.ts` with a lazily imported widget. An element found while its
  import is pending carries no id yet. The discovery that a sibling's
  insertion triggers finds it again, and both imports end in an instance on
  that one element (`Traces.LazyOverlapTwoInstances`).
- `src/index.js` keeps no guard for pending imports. Two elements naming the
  same uncached widget each start an import of it
  (`Traces.IndexJsImportsTwice`).
- `src/Observer.ts` examines only the removed node itself. Removing the
  container of a live widget tears nothing down
  (`Traces.ObserverKeepsRemovedDescendant`). index.js tears the widget down
  (`Traces.IndexJsTearsDownRemovedDescendant`).

## Model

| member | source | states |
|---|---|---|
| Codec.ConvertType | src/utils.ts:3-21 | Throws exactly when the text is bracketed by `{}` or `[]` and JSON.parse rejects it after the quote swap. Yields parsed JSON exactly when the text is bracketed and accepted. A boolean comes only from its keyword, and null exactly from `"null"`. A number is parseFloat of a text whose Number conversion is not NaN. A string result is the input itself, and only for NaN-like text |
| Codec.ConvertTypeIsDecodes | src/helpers/utils.ts:1-19 | The coercion (both copies) agrees on every input with a reference reading of five mutually exclusive cases: bracketed and accepted, bracketed and rejected, keyword, number-like, other. Any result that fits the reading is the function's result |
| Codec.SwapQuotes | src/utils.ts:8 | Every apostrophe becomes a double quote, every other character stays in place, and no apostrophe remains |
| Codec.SwapQuotesKeepsBrackets | src/helpers/utils.ts:2-6 | The text handed to JSON.parse is bracketed exactly when the attribute value is |
| Codec.BracketedTrueIsJson | src/utils.ts:4-8 | `"[true]"` is handed to JSON.parse. It never reaches the keyword, number or string branches |
| Codec.MalformedBracketedThrows | src/helpers/utils.ts:6 | Bracketed text that is not JSON after the swap throws a SyntaxError rather than being returned as text |
| Codec.BlankTextBecomesNaN | src/utils.ts:17-18 | The empty string and every all-whitespace string convert to parseFloat's NaN, not to themselves, given that Number of blank text is 0 |
| Codec.SingleQuotedObjectIsSwapped | src/utils.ts:8 | The single-quoted object `{'a': 1}` is parsed from its double-quoted form |
| Text.Trim | src/index.js:35 | The trimmed name is the input with only whitespace removed at both ends. It neither starts nor ends with whitespace, and it is empty exactly when the input is blank |
| Text.TrimIdempotent | src/index.js:35 | Trimming a trimmed name changes nothing |
| Dom.SetAttribute | src/utils.ts:52 | After setAttribute the lower-cased name reads the new value and every other name reads as before. Names stay unique, and no attribute other than the new one appears |
| Props.CollectProps | src/WidgetInstance.ts:54-64 | Extraction succeeds exactly when every prefixed attribute converts. The keys are exactly the prefixed attributes' names without their first character. Each key holds the converted value of the last prefixed attribute with that key |
| Props.PropsOfDistinctAttributes | src/helpers/WidgetInstance.ts:113-123 | On an element (unique attribute names) with a non-empty prefix, every prefixed attribute contributes its own converted value under its own key |
| Props.KeyDeterminesName | src/WidgetInstance.ts:58-60 | With a non-empty prefix, two prefixed names that give the same key are the same name |
| Props.PropCount | src/WidgetInstance.ts:57-61 | The props object has exactly as many keys as the element has prefixed attributes |
| Props.OneCharPrefixKey | src/WidgetInstance.ts:60 | With a one-character prefix the key is the name minus the prefix |
| Props.LongerPrefixKeepsTail | src/helpers/WidgetInstance.ts:119 | With a longer prefix only the first character is dropped: `:p-size` gives the key `p-size` |
| Props.WriteProps | src/utils.ts:50-54 | Writing the props in order leaves each entry's attribute holding its value unless a later entry writes the same attribute. Attributes no entry names are untouched, and nothing else is added |
| Props.CreateWidget | src/utils.ts:31-57 | The new element carries the name attribute only for a non-empty name, and the class only for a non-empty class. A non-empty name is on the element unless a prop writes the same attribute or a class replaces it. A non-empty class is on the element unless a prop writes `class`. Apart from those, it carries only the prop attributes, each holding its value unless a later entry overwrites it |
| Props.CreatedHoldsEntries | src/utils.ts:51-52 | With a one-character lower-case prefix and distinct lower-case keys, every entry appears on the element verbatim as `prefix + key` |
| Props.CreatedOnlyEntriesPrefixed | src/utils.ts:40-54 | When neither the name attribute nor `class` starts with the prefix, every prefixed attribute of the element is one of the entries |
| Props.CreateThenCollect | src/utils.ts:50-54 | Round trip: collectProps over createWidget's element reads back exactly the keys written, each with the converted value of its entry, and fails exactly when some entry's value throws |
| Naming.SnakeToCamel | src/index.js:6-9 | The result is never longer than the input and is empty only for empty input. It opens with the upper-cased letter of a leading match, else with the input's first character |
| Naming.SnakeToCamelNoHumps | src/index.js:7 | No `-` or `_` followed by a lower-case ASCII letter survives |
| Naming.SnakeToCamelFixesCamel | src/index.js:6-9 | Text with no such pair is returned unchanged |
| Naming.SnakeToCamelIdempotent | src/index.js:7-8 | Camel-casing twice is camel-casing once |
| Naming.SnakeToCamelAppend | src/index.js:7-8 | The global replacement is local: unless a match straddles the boundary (`x` ends in a separator and `y` starts with a lower-case letter), `x + y` camel-cases as `x` and `y` do separately. Together with SnakeToCamelHump and SnakeToCamelFixesCamel this fixes the result for every input |
| Naming.CamelDoubleSeparator | src/index.js:7-8 | Of two separators before a letter only the second starts a match: `--a` becomes `-A` |
| Naming.SnakeToCamelHump | src/index.js:8 | A separator and a lower-case letter become the upper-cased letter alone |
| Naming.IndexOf | src/index.js:24 | The position found is an occurrence of the pattern with no earlier one, and none is found only when the pattern does not occur |
| Naming.ReplaceLeading | src/index.js:24 | Replacing a pattern by the empty string removes exactly its leading occurrence |
| Naming.ReplaceClosing | src/index.js:24 | In a body without `]` followed by `]`, the first `]` is the last character, so removing it gives the body |
| Naming.ComponentSelectorOfAttribute | src/index.js:23-26 | For a selector `[data-` + body + `]` whose body holds no `]`, the dataset key is the camel-cased body |
| Naming.SharpSelectorKey | src/index.js:316-320 | The exported dispatcher's selector `[data-sharp]` gives the key `sharp` |
| Naming.HyphenatedSelectorKey | src/index.js:25 | `[data-my-widget]` gives the camel-cased key `myWidget` |
| Naming.ComponentsNames | src/index.js:34-36 | One name per component, at the same position (so `names[i]` belongs to `components[i]`), each the trimmed attribute value |
| Widget.NewId | src/WidgetInstance.ts:29 | The id is the configured prefix followed by exactly the generated suffix |
| Widget.ShippedIdShape | src/helpers/WidgetInstance.ts:30 | With the prefix `w_` of the helpers configuration and a six-character suffix, ids start with `w_` and are eight characters long |
| Widget.Stamp | src/helpers/WidgetInstance.ts:35 | After the stamp the element's lower-cased id attribute reads the new id. Every other attribute reads as before, so the author's prop attributes survive. Names stay unique |
| Widget.Construct | src/WidgetInstance.ts:24-48 | The id is stamped first and only once, and it stays whatever follows. Every other attribute of the element reads as before the stamp. Props are read second, from the stamped element, and a failing read ends construction with that error. The factory (first constructor only) runs exactly once, with the element, right after the read. A throwing factory ends construction with the element stamped and the handler never run. Otherwise the handler runs at most once, last, with the element, the collected props and the id. The helpers constructor passes its own hooks and calls no factory |
| Widget.HelpersFor | src/helpers/WidgetInstance.ts:45-50 | The helpers constructor hands the handler an object of exactly `qs`, `qsa`, `useState` and `useDebouncedState`. The first constructor hands over what the factory returned for the element, and nothing when the factory throws |
| Widget.Outcome | src/helpers/WidgetInstance.ts:53 | Construction fails exactly when the handler throws. The instance keeps the handler's id, element and props, and its destroy is a no-op exactly when the handler returned nothing |
| Widget.AttributeBecomesProp | src/helpers/WidgetInstance.ts:116-120 | An attribute whose name carries the prefix is read into the prop its key names, as its converted value |
| Widget.StampIsVisibleToProps | src/WidgetInstance.ts:33-35 | Because the stamp precedes the read, an id attribute that starts with the prop prefix makes the instance's own id one of its props |
| Membrane.StateCalls | src/helpers/WidgetInstance.ts:68-84 | useState calls onChange exactly once per reported mutation, and never for reads |
| Membrane.Cancel | src/helpers/WidgetInstance.ts:99-102 | clearTimeout removes exactly the timers with that handle |
| Membrane.Write | src/helpers/WidgetInstance.ts:98-107 | A mutation leaves exactly one timer scheduled, the new one, due after the clamped delay. It makes no call, and at most one timer stays pending |
| Membrane.Tick | src/helpers/WidgetInstance.ts:104-106 | The clock runs onChange once when the pending timer is due and removes that timer. Otherwise the call count and the pending timer stay as they were |
| Membrane.Run | src/helpers/WidgetInstance.ts:91-107 | After any trace of mutations and clock events, at most one timer of the closure is pending, and the closure holds its handle |
| Membrane.TracksAfterMutate | src/helpers/WidgetInstance.ts:99-104 | A mutation keeps the machine in agreement with the reference reading of debouncing |
| Membrane.TracksAfterClock | src/helpers/WidgetInstance.ts:104-106 | A clock event keeps the machine in agreement with the reference reading of debouncing |
| Membrane.RunTracks | src/helpers/WidgetInstance.ts:86-111 | The machine agrees with the reference reading after every trace |
| Membrane.DebounceCalls | src/helpers/WidgetInstance.ts:92-108 | onChange has run exactly once for each mutation that the clock passes by `delay` before the next mutation, and at most one timer is pending |
| Membrane.DebounceNeverOutrunsState | src/helpers/WidgetInstance.ts:86-111 | The debounced hook never calls onChange more often than there are mutations, which is how often useState calls it |
| Membrane.NoEarlyCall | src/helpers/WidgetInstance.ts:104 | A clock event calls onChange only when some mutation has happened and the clock has reached the last mutation's time plus the delay |
| Membrane.BurstCallsOnce | src/helpers/WidgetInstance.ts:98-107 | Any burst of mutations with no clock event between them, followed by the clock, gives exactly one call if the clock reached the last mutation's time plus the delay, and none otherwise |
| Membrane.NegativeDelayFiresAtOnce | src/helpers/WidgetInstance.ts:106 | For every negative delay, a mutation followed by a clock event at the same time gives exactly one call |
| Membrane.NegativeDelayIsZero | src/helpers/WidgetInstance.ts:106 | A negative delay acts as zero: on every trace the machine ends in the same state as with delay 0 |
| Registry.Select | src/Observer.ts:124-128 | Discovery keeps exactly the elements inside the search root that have a non-empty name and no id where the variant checks. They stay in input order (a subsequence of the input), without duplicates when the input has none |
| Registry.Find | src/Observer.ts:119-129 | The search root is the observed root itself, else the target's parent. A detached target finds nothing. Otherwise the result is exactly the eligible elements below that node, in document order, each once |
| Registry.ObserverTs | src/Observer.ts:141 | src/Observer.ts imports a name exactly when it is not a key of `widgets`, and every other name has a handler. Only the constructor writes ids, at the place discovery and removal read. Removal looks at the removed node only. The destroy hook runs before the entry is deleted |
| Registry.HelpersObserver | src/helpers/Observer.ts:128-139 | The helpers observer imports a name exactly when it is a key of `asyncComponents`. Any other name has a handler exactly when it is a key of `components`. Discovery and removal read an id the constructor never writes |
| Registry.IndexJs | src/index.js:274-279 | index.js imports a name exactly until its class is cached. It stamps ids during discovery, at the place discovery checks and at the attribute the descendant query reads. Names are trimmed, every record is handled, and the entry is deleted before the destroy hooks run |
| Registry.Name | src/index.js:35 | Without trimming the name is the attribute value. With trimming (index.js) it is the value with only whitespace removed at both ends, it neither starts nor ends with whitespace, and it is empty exactly for a blank value |
| Registry.Stamp | src/index.js:211-212 | The given id is written at every place the variant stamps (CID and the data attribute for index.js), on that element only. Every other mark on the element and every other element stays as it was |
| Registry.StampAll | src/index.js:209-214 | Each found element gets its own fresh id, in order. The oracle advances by one per element. Nothing else on the page, in the registry or in the loads changes |
| Registry.Construct | src/Observer.ts:150-167 | A late-stamping variant stamps a fresh id whatever the handler does and registers the instance under it only on success. An early-stamping variant registers under the id already stamped. Only the constructed element changes |
| Registry.Begin | src/helpers/Observer.ts:124-144 | A lazily imported name starts one import, logs it, and leaves the page, ids and registry as they were. Any other name leaves the pending loads as they were. Either way only that element can change on the page |
| Registry.Start | src/index.js:266-271 | The callbacks over the found elements only append loads, each for a found element whose name is lazy |
| Registry.Discover | src/Observer.ts:131-182 | One discovery pass keeps the page's shape and the cache. It only appends loads, each for an element it found with a lazy name |
| Registry.Unregister | src/Observer.ts:61-83 | Exactly the instance whose id the node carries at that place is torn down, if that id is registered, and the teardown is logged. An absent or unregistered id changes nothing. The teardown throws exactly when that registered id's destroy hook throws. The TypeScript observers then keep the entry, and index.js has deleted it already |
| Registry.UnregisterAll | src/index.js:99-105 | Tearing down the given elements' widgets throws exactly when one of their registered ids throws. Otherwise exactly the registered ids they carry leave the registry. Either way no other entry goes or changes, and with no registered id among them nothing changes |
| Registry.TaggedBelow | src/index.js:90 | The selector matches exactly the tagged elements strictly inside the removed node |
| Registry.RemoveNode | src/index.js:108-116 | Removing one node looks at its own checked id and, in index.js, the ids of the tagged elements inside it. It throws exactly when one of those is registered and throwing. Otherwise exactly those registered ids go. No other entry changes, and page, cache, loads and oracle stay as they were |
| Registry.RemoveNodes | src/helpers/Observer.ts:52-75 | Handling a list of removed nodes throws exactly when some registered id they look at throws. Otherwise exactly the registered ids of all the removed nodes (and of index.js's tagged descendants) go. No other entry changes, and with none registered nothing changes |
| Registry.DiscoverAll | src/helpers/Observer.ts:77-83 | One discovery per added node keeps the page's shape and cache and only appends loads |
| Registry.Deliver | src/Observer.ts:93-117 | A mutation batch, handled with removals before additions in each record, keeps the page's shape and the cache, and never moves the id oracle back. This holds also when a destroy hook ends the batch |
| Registry.Complete | src/index.js:274-298 | A settled import drops exactly its load and never moves the oracle back. index.js caches the class exactly when construction succeeded, and no other variant caches |
| Registry.Apply | src/Observer.ts:131-191 | A page edit changes only the page. Every other step keeps the page's shape. The oracle never moves back. A settling import drops exactly its load, and only it can add to the class cache, and then only its own name |
| Lifecycle.StampFresh | src/WidgetInstance.ts:29-33 | Stamping one element with the next id keeps every id on the page and in the log below the oracle, and keeps ids unique at each place |
| Lifecycle.StampAllFresh | src/index.js:209-214 | Stamping every found element keeps the id invariant |
| Lifecycle.ConstructFresh | src/Observer.ts:159-167 | Construction keeps the id invariant on an element that is not pending and whose id (under early stamping) is unregistered, so no id is registered twice |
| Lifecycle.BeginFresh | src/Observer.ts:150-164 | The synchronous part of the callback keeps the id invariant |
| Lifecycle.DiscoverFresh | src/index.js:262-300 | Discovery keeps the id invariant for a variant whose early stamping writes the id it checks |
| Lifecycle.RemoveNodesFresh | src/index.js:88-117 | Removal keeps the id invariant, so the registry stays exactly the registered and not yet torn-down ids |
| Lifecycle.DeliverFresh | src/index.js:223-253 | A mutation batch keeps the id invariant |
| Lifecycle.CompleteFresh | src/index.js:286-294 | A settling import keeps the id invariant |
| Lifecycle.ApplyFresh | src/helpers/Observer.ts:119-159 | Every allowed step (first pass, batch, settled import, page edit) keeps the id invariant |
| Lifecycle.RunsFresh | src/Observer.ts:184-191 | The id invariant holds after every run from a state that has it |
| Lifecycle.OnceEachPairwise | src/index.js:171-185 | In a log where each id is registered and torn down at most once, no two registrations share an id and no two teardowns do |
| Lifecycle.Reachable | src/index.js:171-173 | From an untouched page: every id came from the oracle, and no two elements share an id at one place. The registry is exactly the ids registered and not yet torn down, and only registered ids are torn down. No instance is registered twice or torn down twice |
| Binding.BoundAtMostOne | src/Observer.ts:167 | When every registered instance sits on an element carrying its id where discovery checks, no element has two instances |
| Binding.ConstructBound | src/helpers/Observer.ts:137-144 | Constructing on an element with no id at the checked place keeps every instance bound, for a variant that writes the id it checks |
| Binding.DiscoverBound | src/index.js:262-300 | Discovery keeps every instance bound to its element |
| Binding.DeliverBound | src/helpers/Observer.ts:85-109 | A mutation batch keeps every instance bound |
| Binding.CompleteBound | src/index.js:286-294 | A settling import under early stamping keeps every instance bound |
| Binding.ApplyBound | src/Observer.ts:131-167 | Every allowed step keeps every instance bound, provided page edits under late stamping add no lazily imported name |
| Binding.RunsEagerBound | src/Observer.ts:157-164 | Every run of such steps keeps every instance bound |
| Binding.OneInstancePerElement | src/index.js:209-213 | For a variant that writes the id it checks, and that either stamps during discovery or sees no lazily imported name: from an untouched page, no element ever has two live instances. Each instance sits on an element carrying its id, and the registry is exactly the registered and not torn-down ids |
| Binding.DiscoverChecks | src/index.js:197-213 | After discovery every element it found carries an id where discovery checks, and no other element's id changed |
| Binding.NothingLeftToFind | src/helpers/Observer.ts:111-117 | After such a discovery the same target finds nothing |
| Binding.DiscoverIdempotent | src/Observer.ts:124-128 | A second discovery pass from the same target changes nothing, whichever handlers fail |
| Traces.StartAllLazy | src/Observer.ts:150-151 | When every found name is lazy, the pass starts one import per element, in order, and neither stamps nor registers anything |
| Traces.FindAfterStamp | src/helpers/Observer.ts:116 | Stamping a place discovery does not check leaves discovery's result unchanged |
| Traces.LazyDiscoveryRepeats | src/Observer.ts:150-156 | Under late stamping, a pending element is still eligible after the pass that started its import, so a second pass starts a second, identical import |
| Traces.LazyOverlapTwoInstances | src/Observer.ts:141-167 | src/Observer.ts with a lazily imported widget: from the untouched one-widget page, a run ends with two live instances on one element |
| Traces.ObserverKeepsRemovedDescendant | src/Observer.ts:61-63 | src/Observer.ts: removing the container of a live widget leaves the widget's instance registered |
| Traces.MoveTearsDown | src/Observer.ts:102-108 | Moving a live element that discovery no longer finds (removed and re-added in one record) tears its instance down and binds nothing in its place |
| Traces.MovedWidgetStaysDown | src/Observer.ts:97-108 | src/Observer.ts: a moved live widget is torn down, and since it still carries its id it is never bound again |
| Traces.ThrowingDestroyEndsBatch | src/Observer.ts:79-80 | When the removed widget's destroy hook throws, nothing the record adds and no later record is handled. The TypeScript observers keep the instance registered; index.js has removed it |
| Traces.ObserverThrowingDestroyKeepsWidget | src/Observer.ts:68-81 | src/Observer.ts: a moved live widget whose destroy hook throws stays registered, and the batch changes nothing |
| Traces.FailedHandlerNotRetried | src/Observer.ts:159-167 | A throwing handler leaves its element stamped and unregistered, and no longer eligible, so later discovery never retries it |
| Traces.OtherRecordStopsObserver | src/Observer.ts:97 | A non-childList record ends its batch: the records after it are dropped |
| Traces.SkipOtherRecord | src/index.js:227-248 | A variant that does not return on a non-childList record handles the next record |
| Traces.HelpersRebindsLiveWidget | src/helpers/Observer.ts:116 | The helpers observer as written, every name synchronous: moving a live widget constructs a second instance on it |
| Traces.HelpersRemovalKeepsInstance | src/helpers/Observer.ts:56 | The helpers observer as written never tears down a removed element that carries only the ids the constructor writes |
| Traces.HelpersFixedOneInstance | src/helpers/configs.ts:8-11 | With discovery and removal reading `data-widget-id`, which the constructor writes, and no lazy name on the page: every run keeps at most one live instance per element, and discovery is idempotent |
| Traces.IndexJsTearsDownRemovedDescendant | src/index.js:99-115 | index.js: removing the container of a live widget tears the widget down |
| Traces.IndexJsImportsTwice | src/index.js:274-288 | index.js: two elements naming the same uncached widget, found in one pass, each start an import of it |
| Traces.OtherRecordSkippedByIndexJs | src/index.js:238-248 | In index.js a widget added by the record after a non-childList one is still stamped |

## Left out

- Real DOM, MutationObserver wiring, `querySelectorAll` and the text-node filters (`!!el.querySelectorAll`): the page is an abstract tree of element handles. Text nodes are never added or removed.
- The `attributes: false` option of both TypeScript observers: with it the browser never delivers a non-childList record. The model still lets such a record arrive, to show what the `return` would do.
- `afterStateAttributeChanged` and `onNewComponentInstance` of `src/index.js`: they depend on component-class internals (`$ev`, `EFFECTS`, `CSTATE`, mount hooks) that are not part of this model.
- Which destroy hooks throw is chosen by the environment for each batch, as a set of instance ids, rather than fixed once per instance. Which handlers and factories throw is chosen per step in the same way.
- The steps over-approximate the program. The first pass (`Init`) may happen any number of times and at any point, and a batch's records need not match the page edits before it. The invariants of `Lifecycle` and `Binding` therefore cover more runs than the program has.
- `JSON.parse`, `isNaN` and `parseFloat`: uninterpreted host functions. Only the ECMAScript fact that blank text is number-like and parses to NaN is assumed, as a hypothesis.
- Per-element conversion of arrays: the code has none. A bracketed value, array or object, goes to `JSON.parse` whole after every apostrophe in it becomes a double quote, so a quote inside a string element is swapped like any other (`Codec.ConvertType`).
- Blank text decoding to itself: the code does not do this. `""` and blank text are number-like, so they yield NaN (`Codec.BlankTextBecomesNaN`).
- `nanoid` and `shortid`: a counter oracle that never repeats an id. Ids are abstract numbers in the registry. In the constructor model the suffix is a parameter.
- `src/configs.ts` is not part of this model. The attribute names and prop prefix that `src/Observer.ts` and `src/WidgetInstance.ts` read from it are parameters. The witness runs use the values of `src/helpers/configs.ts`.
- Widget.Construct: `src/helpers/configs.ts` defines no `htmlProps`, so `collectProps` of `src/helpers/WidgetInstance.ts` would read `prefix` of `undefined`. The prop prefix is a parameter instead.
- Props.CreateWidget: the tag name, the inner HTML and the `classList.add` exception for a class name containing whitespace are not modelled. Neither is the `InvalidCharacterError` that `setAttribute` throws for a prop attribute name that is not a valid XML name, such as a key containing a space. The model writes such an attribute instead of aborting. `src/helpers/createWidget.ts` writes props through `dataset` instead, and it is not part of this model.
- Prop keys are `name.substring(1)` exactly, as in the code. No case normalisation is applied beyond what `setAttribute` does.
- When a discovery target has no parent, the TypeScript observers throw from `querySelectorAll` on `null`, and the rejected promise is dropped. The model returns no elements, which leaves the same state.
- The ObservableMembrane library: only its `valueMutated` callback is modelled, once per reported mutation.
- Timers are clock events over integer times. Browser clamping beyond "negative means zero" is not modelled.
- `qs` and `qsa` and all `console` logging are not modelled.
- `lib/index.js` (the compiled form of `src/index.js`), `src/index.ts` (re-exports) and `webpack.config.js` are not modelled.
- Custom `rootElement` and `selector` options are not modelled: the observed root and the name attribute are fields of the page and of the variant.
- Author-written id attributes: ids are stamped only by the library, and a page edit never writes one.
- Concurrency between callbacks: each callback runs to its first `await` as one step, and each import settles as a later step in any order the environment picks.

## Findings

| source | as written | input that shows it | evidently intended | confidence | as-written member | corrected member |
|---|---|---|---|---|---|---|
| src/helpers/Observer.ts:116 | Discovery and removal read `data-r-id` (src/helpers/Observer.ts:56, 116), but the constructor writes the id to `data-widget-id` (src/helpers/WidgetInstance.ts:35, src/helpers/configs.ts:9). An instance's element therefore stays eligible and is never matched on removal | A page with one element `data-r="w"`, `w` bundled synchronously, moved (removed and re-added in one record) after the first pass, under a configuration that defines `htmlProps.prefix`. With `src/helpers/configs.ts` as shipped, `collectProps` throws at src/helpers/WidgetInstance.ts:117 before any handler runs, and the prop prefix is a parameter here | Discovery and removal read the attribute the constructor writes, so each element has at most one live instance and discovery is idempotent | not executed | Traces.HelpersRebindsLiveWidget | Traces.HelpersFixedOneInstance |
