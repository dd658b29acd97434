# pulse: a verified model of the controller framework

pulse attaches controller objects to DOM elements. An element lists
controller names in `data-controller`. An `Application` creates one
controller per listed name, remembers them under the element's
`data-controller-id`, and connects or disconnects them as elements come and
go. A controller registers event listeners with
`on("target->event.key+combo:modifier", callback)`. Each listener filters
events:

- by whether the event came from a marked target element;
- by an exact keyboard combination.

It then applies `:prevent` and `:stop` and calls the callback.
`disconnect()` is meant to remove every listener the controller added
(with one exception in the code, listed under Findings).

This project models the controller framework of `src/index.ts` in Dafny
(what it leaves out is listed at the end), in these modules:

- **`JsStrings`** (strings.dfy): the JavaScript string operations the code
  relies on:
  - `split` with a string separator and with `/ +/`;
  - `filter(Boolean)`, and `filter` on a non-blank `trim()`;
  - ASCII `toLowerCase`;
  - `Number.prototype.toString` on counters.
- **`EventExpressions`** (expression.dfy): `parseEventExpression`, built
  from those splits. It comes with a printer for canonical descriptors and
  the round trip between the two.
- **`Conditions`** (conditions.dfy):
  - the `targetMapping` and `keyMapping` tables and the four keyboard
    modifiers;
  - target resolution;
  - the target and keyboard conditions;
  - the trigger, as the sequence of effects it has on an event.
- **`Dom`** (dom.dfy): an abstract document. Each element has a `dataset`
  and its ordered descendant list (what `querySelectorAll("*")` returns).
  Event targets are nodes: the window, the document, an element, or any
  other node.
- **`Listeners`** (listeners.dfy): the browser's listener lists, as
  `addEventListener` and `removeEventListener` maintain them. They live in a
  `ListenerRegistry` object. A listener is identified by its node, its event
  type, its trigger closure and its capture flag.
- **`Controllers`** (controller.dfy): `class Controller`. Its `listeners`
  field is the stack of removal functions, each kept as the key it removes.
  Its methods are:
  - `On`, `Connect` and `Disconnect`, proved against specification
    functions of the old state;
  - the `target`, `hasTarget` and `targets` queries.
- **`Applications`** (application.dfy): `class Application`, holding:
  - the registrations;
  - the id counter;
  - the `associations` map from id to the controllers on that element;
  - the log of `console.error` calls;
  - a ghost trace of the per-element `connect` and `disconnect` calls.

  Its methods are `Register`, `NewControllerId`, `Connect`, `ConnectAll`,
  `Disconnect`, `Start` and `HandleMutations`. Each one's `forEach` loops
  are `while` loops with invariants. Each one's outcome is stated through
  functions of the old state: which names are admitted, what is logged,
  which slots are dropped, and which calls a mutation batch makes.

A controller subclass's `connect()` is modelled as a list of `on` calls,
its *bindings*. JavaScript `instanceof` is modelled as class identities:
each class has a `classId` and carries the set of its ancestors' ids (its
*lineage*).

Where the documentation and the code disagree, the model follows the code:

- An expression without `->` makes `rest.split` throw. Containing `->` is
  therefore a precondition of the parser, and of `on` for each
  space-separated part.
- An empty target (`"->click"`) is not special. The listener goes on the
  controller's element and is filtered by the selector
  `[data-<identifier>-target=""]` (`Conditions.EmptyTargetIsScoped`).
- Modifiers are kept verbatim, unknown ones included. Only `prevent` and
  `stop` have an effect.
- `disconnect` does not clear `data-controller-id`.

## Model

| member | source | states |
|---|---|---|
| JsStrings.IndexFrom | src/index.ts:77-80 | the position found is an occurrence of the separator, and no earlier position (from the start) is one; `None` means there is no occurrence at all |
| JsStrings.ContainsIff | src/index.ts:77-80 | a string contains the separator exactly when the separator occurs at some position |
| JsStrings.Split | src/index.ts:77-80 | `split` with a string separator always yields at least one piece |
| JsStrings.SplitPieces | src/index.ts:77-80 | no piece of a split contains the separator |
| JsStrings.JoinSplit | src/index.ts:77-80 | joining the pieces with the separator gives the original string back |
| JsStrings.SplitHeadIsPrefix | src/index.ts:77-79 | the first piece (the one destructured first) is a prefix of the string |
| JsStrings.SplitWhole | src/index.ts:77-79 | a string lacking the separator's last character splits into itself alone |
| JsStrings.SplitPeel | src/index.ts:77 | splitting `a + sep + b` yields `a` and then the pieces of `b`, when `a` cannot hold the separator |
| JsStrings.SplitJoin | src/index.ts:77-80 | splitting joined pieces that cannot hold the separator yields exactly those pieces |
| JsStrings.FirstOccurrenceAfter | src/index.ts:77 | in `a + "->" + b`, with no `>` in `a`, the first arrow is the one right after `a` |
| JsStrings.FirstSpace | src/index.ts:349 | the first match of `/ +/` starts at the first space, and there is none when the string has no space |
| JsStrings.SkipSpaces | src/index.ts:349 | the rest after a run of spaces is shorter or equal and does not start with a space |
| JsStrings.SplitSpaces | src/index.ts:349 | `split(/ +/)` yields at least one piece |
| JsStrings.SplitSpacesNoSpaces | src/index.ts:349 | no piece of `split(/ +/)` contains a space |
| JsStrings.SplitSpacesConcat | src/index.ts:349 | the pieces of `split(/ +/)` together are the string without its spaces: only spaces are lost |
| JsStrings.SplitSpacesNonEmpty | src/index.ts:349 | only the first and last pieces of `split(/ +/)` can be empty |
| JsStrings.SplitSpacesFirstNonEmpty | src/index.ts:349 | a string that does not start with a space has a non-empty first piece |
| JsStrings.SplitSpacesNoSpace | src/index.ts:349 | a string without spaces is a single piece |
| JsStrings.SplitSpacesPair | src/index.ts:334 | two space-free words joined by one space split back into those two words |
| JsStrings.SplitSpacesSpaced | src/index.ts:349 | space-free words set apart by runs of spaces, no inner word empty, split back into exactly those words |
| JsStrings.SpacedSplitSpaces | src/index.ts:349 | every string is its `split(/ +/)` pieces put back together with the runs of spaces between them |
| JsStrings.SplitHeadCut | src/index.ts:77-79 | the first piece of a split ends at the first occurrence of the separator, or is the whole string |
| JsStrings.NonEmptyKeepsAll | src/index.ts:204 | `filter(Boolean)` keeps a list of non-empty strings unchanged |
| JsStrings.NonEmpty | src/index.ts:204 | `filter(Boolean)` keeps exactly the non-empty pieces |
| JsStrings.NonBlank | src/index.ts:80 | the key filter keeps exactly the pieces whose `trim()` is non-empty, untrimmed |
| JsStrings.NonBlankKeepsAll | src/index.ts:80 | the filter keeps a list with no blank piece as it is |
| JsStrings.ToLower | src/index.ts:375-376 | ASCII lower-casing keeps the length and maps each character independently (full Unicode case mapping is under Left out) |
| JsStrings.NatToString | src/index.ts:253 | a counter prints as a non-empty string of decimal digits with no leading zero |
| JsStrings.DecimalRoundTrip | src/index.ts:253 | the printed digits read back as the same number |
| JsStrings.NatToStringInjective | src/index.ts:251-254 | different counter values print as different ids |
| EventExpressions.FirstKey | src/index.ts:81 | `key` is an element of `keys` that is not a modifier, or `""` when every element is a modifier |
| EventExpressions.ParseEventExpression | src/index.ts:76-84 | every key has a non-blank trim; `key` is `""` or one of the keys that is not a modifier |
| EventExpressions.ParseTarget | src/index.ts:77 | `target` is exactly the text before the first `->` |
| EventExpressions.ParseEvent | src/index.ts:77-79 | the expression starts with `target->event`; `event` contains no `->`, `:` or `.`, and is followed by the end of the expression, a `.`, a `:` or another `->` |
| EventExpressions.ArrowCut | src/index.ts:77 | the first split separates the text before the first arrow from the first piece after it |
| EventExpressions.EventFollowsArrow | src/index.ts:77-79 | `event` comes right after the first arrow |
| EventExpressions.EventTokens | src/index.ts:78-79 | the event name holds no `->`, `:` or `.` and stops at the first of them after the arrow, or at the end |
| EventExpressions.EventStops | src/index.ts:77-79 | the event name is followed by the end of the expression, a `.`, a `:` or another `->` |
| EventExpressions.ParseTokens | src/index.ts:78-80 | no key contains `+` and no modifier contains `:` |
| EventExpressions.FormatArrow | src/index.ts:77 | a printed canonical descriptor has one arrow, with the target before it and event, combo and modifiers after it |
| EventExpressions.FormatColons | src/index.ts:78 | the modifiers come back verbatim and in order from the `:` split |
| EventExpressions.DotHalves | src/index.ts:79 | the `.` split gives the event name, then the `+`-joined keys when there are any |
| EventExpressions.FormatDot | src/index.ts:79-80 | the event name and the keys come back from the `.` and `+` splits |
| EventExpressions.ComboKeys | src/index.ts:80 | the keys come back from the `+` split with none filtered out, and a missing combo gives no keys |
| EventExpressions.ParseFormat | src/index.ts:76-84 | parsing a printed canonical descriptor gives it back: nothing is lost, filtered or reordered |
| EventExpressions.CtrlEnterExample | src/index.ts:342 | the documented `input->keydown.ctrl+enter:prevent` parses to target `input`, event `keydown`, keys `ctrl`,`enter`, key `enter`, modifiers `prevent` |
| EventExpressions.CtrlEnterCanonical | src/index.ts:342 | that descriptor is canonical |
| EventExpressions.CtrlEnterFormat | src/index.ts:342 | that descriptor prints as the documented expression |
| EventExpressions.CtrlEnterKeys | src/index.ts:81 | of `ctrl+enter`, the key is `enter` |
| EventExpressions.PlainClickExample | src/index.ts:326 | `panel->click` has no keys, an empty key and no modifiers |
| EventExpressions.ExtraArrowsIgnored | src/index.ts:77 | text after a second `->` is ignored: the expression parses as if it ended there |
| Conditions.Resolve | src/index.ts:353-357 | a name whose mapping is truthy puts the listener on the mapped node with no target filter; any other name puts it on the controller's element, filtered |
| Conditions.Fire | src/index.ts:354-401 | the callback runs exactly when both conditions pass, and last; `preventDefault` and `stopPropagation` happen before it, exactly when `prevent` or `stop` is a modifier |
| Conditions.ExtraModifierRejects | src/index.ts:377-381 | a held modifier that the combo does not name rejects the event (`ctrl+enter` with shift held) |
| Conditions.MissingModifierRejects | src/index.ts:377-381 | a combo modifier that is not held rejects the event |
| Conditions.KeyCaseIgnored | src/index.ts:374-376 | events whose keys differ only in ASCII letter case are accepted or rejected alike |
| Conditions.NamedKeysAreLong | src/index.ts:49-60 | every named key is at least two characters long, so none collides with a letter or digit |
| Conditions.EmptyKeyUnmapped | src/index.ts:48-64 | the empty key name is not in the default mapping |
| Conditions.AlphanumericKeysShort | src/index.ts:61-63 | the letter and digit entries are single characters |
| Conditions.AlphanumericsMapToThemselves | src/index.ts:61-63 | every lower-case letter and digit maps to itself |
| Conditions.EnterNamed | src/index.ts:49 | `enter` is a named key, not a letter or digit |
| Conditions.EnterMapped | src/index.ts:49 | `enter` maps to `Enter` |
| Conditions.ModifierOnlyComboNeverFires | src/index.ts:369-383 | under the default mapping, a combo with keys but no non-modifier key rejects every keyboard event |
| Conditions.CtrlEnterCombo | src/index.ts:373-383 | `ctrl+enter` accepts exactly the Enter key with ctrl held and meta, alt and shift released |
| Conditions.CtrlEnterFilter | src/index.ts:342 | the documented `ctrl+enter` expression, under the default mapping, accepts exactly Enter with ctrl alone |
| Conditions.OrdinaryTargetsAreScoped | src/index.ts:29-35 | under the default mapping, a target name not starting with `@` goes on the controller's element, filtered by target |
| Conditions.WindowTargetUnscoped | src/index.ts:30 | `@window` listens on the window and never filters by target |
| Conditions.EmptyTargetIsScoped | src/index.ts:352-361 | an empty target goes on the controller's element and accepts only events from elements marked with an empty target name |
| Listeners.Keys | src/index.ts:403-404 | one removal key per listener |
| Listeners.KeysMembers | src/index.ts:403-404 | the keys of a listener list are exactly its listeners' keys |
| Listeners.Without | src/index.ts:403 | the removal result keeps exactly the listeners whose key is not removed, in order |
| Listeners.RemovedExactly | src/index.ts:403 | after removal no listener with the removed key is left, and every other listener stays |
| Listeners.WithoutAppend | src/index.ts:403 | removal distributes over concatenation |
| Listeners.WithoutWithout | src/index.ts:497-499 | removing two key sets one after the other is removing their union |
| Listeners.DrainIsWithout | src/index.ts:496-500 | popping and calling every removal function, last to first, leaves exactly the listeners none of them names, so the order does not matter |
| Listeners.AddThenRemove | src/index.ts:403-404 | adding a new listener and removing it by its own key restores the list |
| Listeners.AddIdempotent | src/index.ts:404 | adding the same listener twice is adding it once |
| Listeners.OlderNotRegistered | src/index.ts:387 | a list of older closures holds no listener of a newer closure |
| Listeners.ListenerRegistry.NewTriggerId | src/index.ts:387 | a new trigger closure is distinct from every registered one |
| Listeners.ListenerRegistry.AddEventListener | src/index.ts:404 | `addEventListener` appends the listener with the capture, once and passive flags read from the options, unless an identical one is registered |
| Listeners.ListenerRegistry.RemoveEventListener | src/index.ts:403 | `removeEventListener` drops the listener with that node, event, closure and capture flag |
| Dom.Document.SetData | src/index.ts:208 | writing a `data-*` value changes that one entry of that element and nothing else |
| Controllers.OnListeners | src/index.ts:349-406 | `on` installs one listener per space-separated part |
| Controllers.AsWrittenOffs | src/index.ts:403 | the removal keys exactly as the source builds them: capture is always false |
| Controllers.MarkedAmong | src/index.ts:476-482 | the result lists exactly the marked elements among the candidates |
| Controllers.FirstMarked | src/index.ts:424-429 | the position found is a marked element with no marked element before it; `None` means none is marked |
| Controllers.FirstMarkedHeadsMarkedAmong | src/index.ts:424-482 | `target` finds an element exactly when `targets` is non-empty, and it is the first of them |
| Controllers.Controller.constructor | src/index.ts:286-294 | a new controller keeps its name, element and class and has no removal functions |
| Controllers.Controller.OnPiece | src/index.ts:350-405 | one part gives one fresh closure on the resolved node, one registered listener and one pushed removal key |
| Controllers.Controller.On | src/index.ts:344-407 | the listener list grows by exactly the parts' listeners, in order, and the stack by their keys |
| Controllers.Controller.Connect | src/index.ts:262-269 | `connect()` performs its class's `on` calls in order and registers exactly what they install |
| Controllers.Controller.Disconnect | src/index.ts:496-500 | the stack ends empty and the listener list loses exactly the listeners whose keys were on it (for the corrected, capture-keeping keys; see Findings) |
| Controllers.Controller.Targets | src/index.ts:476-482 | `targets(name)` is exactly the descendants marked with that name, in document order |
| Controllers.Controller.Target | src/index.ts:424-438 | `target(name)` is the first of `targets(name)`, or the not-found error that names the controller and the target when there is none |
| Controllers.Controller.HasTarget | src/index.ts:453-459 | `hasTarget(name)` holds exactly when some descendant is marked with the name, that is, when `target(name)` does not throw |
| Controllers.ConnectListenersIds | src/index.ts:387 | the closures `connect()` creates are numbered consecutively |
| Controllers.OnListenersIds | src/index.ts:387 | the closures one `on` call creates are numbered consecutively |
| Controllers.FreshListenersRemoved | src/index.ts:403-405 | removing newly added listeners by their own keys restores the earlier list |
| Controllers.ConnectThenDisconnect | src/index.ts:487-500 | connecting a controller and then disconnecting it restores the listener lists exactly |
| Controllers.OnThenDisconnect | src/index.ts:403-405 | with removal keys that keep the capture flag, every listener `on` adds is removed again |
| Controllers.AsWrittenOffKeepsCapture | src/index.ts:403 | the as-written removal keys leave every capture listener in place |
| Controllers.AsWrittenOffLeaksCaptureListeners | src/index.ts:403-404 | with the source's removal functions, every listener that `on(..., true)` adds is still registered after `disconnect` |
| Controllers.OnePartOneListener | src/index.ts:349 | an expression without spaces installs exactly one listener |
| Controllers.TwoPartsTwoListeners | src/index.ts:334 | `field->focus field->input` installs two listeners, in order |
| Applications.ControllerNames | src/index.ts:204 | the listed names are non-empty and contain no space |
| Applications.ConcatNonEmpty | src/index.ts:204 | dropping empty pieces does not change what the pieces spell |
| Applications.ControllerNamesSpellAttribute | src/index.ts:204 | the listed names spell the attribute with its spaces removed |
| Applications.ControllerNamesAreWords | src/index.ts:204 | the listed names are exactly the non-empty words of the attribute, in order |
| Applications.AssignedId | src/index.ts:205 | the id `connect` uses is never empty |
| Applications.AssignedIdCases | src/index.ts:205 | a truthy persisted id is reused as it is; otherwise the next counter value is used |
| Applications.ReconnectKeepsId | src/index.ts:205-208 | once written back, the same id is read on every later `connect` |
| Applications.Admit | src/index.ts:210-227 | one name admits at most one controller |
| Applications.Admitted | src/index.ts:210-228 | `connect` admits at most one controller per listed name |
| Applications.MissingExactly | src/index.ts:213-218 | the log names exactly the unregistered listed names, each for the element being connected |
| Applications.AnyInstanceAppend | src/index.ts:220 | an instance in the slot stays there when more controllers join |
| Applications.AdmittedCovers | src/index.ts:210-228 | after `connect`, every registered listed name has an instance of its class in the slot |
| Applications.AdmittedNone | src/index.ts:220-222 | when every registered name already has an instance in the slot, nothing is created |
| Applications.ConnectAgainAdmitsNothing | src/index.ts:203-229 | connecting an element a second time creates no controller |
| Applications.SameClassTwiceAdmittedOnce | src/index.ts:220-225 | two names registered to classes of one lineage create one controller, under the first name |
| Applications.AdmittedRegistered | src/index.ts:211-224 | every admitted controller is of the class registered under its name |
| Applications.AdmissionsOf | src/index.ts:225 | one admission per controller of the slot |
| Applications.AdmissionsOfConcat | src/index.ts:225 | the admissions of two slots joined are their admissions joined |
| Applications.Carrying | src/index.ts:177 | the selector keeps exactly the elements carrying the attribute, even an empty one |
| Applications.CarryingConcat | src/index.ts:177 | the selector keeps document order: the matches in two stretches of the document are those of the first, then those of the second |
| Applications.IdsOf | src/index.ts:181-184 | the ids `disconnect` drops are the truthy `data-controller-id` values of the elements it visits |
| Applications.IdsOfMembers | src/index.ts:181-188 | an id is dropped exactly when a visited element carries it as a truthy `data-controller-id` |
| Applications.DisconnectNodes | src/index.ts:174-179 | `disconnect` visits the element first, then exactly its descendants carrying `data-controller-id` |
| Applications.ConnectNodes | src/index.ts:237-240 | `connectAll` visits the element first, then exactly its descendants carrying `data-controller` |
| Applications.SetIdKeepsControllerAttrs | src/index.ts:208 | writing `data-controller-id` leaves every `data-controller` attribute as it was |
| Applications.AgreeOnController | src/index.ts:204-241 | whether an element is connected, and with which names, depends only on its `data-controller` |
| Applications.ConnectCalls | src/index.ts:240-243 | `connectAll` calls `connect` exactly on the visited nodes whose `data-controller` is truthy |
| Applications.MissingAllUnregistered | src/index.ts:213-218 | every entry `connectAll` logs is an unregistered name listed on a node it connects |
| Applications.CarryingAgrees | src/index.ts:239 | the `[data-controller]` query depends only on the `data-controller` attributes |
| Applications.ConnectCallsAgree | src/index.ts:240-243 | the calls and the log of `connectAll` depend only on the `data-controller` attributes |
| Applications.ConnectAllAgrees | src/index.ts:236-245 | the nodes, calls and log of `connectAll` are unaffected by the ids that `connect` writes |
| Applications.AddedCalls | src/index.ts:142-148 | the added nodes produce only `connect` calls, each on an element with a truthy `data-controller` |
| Applications.RemovedCalls | src/index.ts:150-156 | the removed nodes produce exactly one `disconnect` per element node, and nothing for other nodes |
| Applications.MutationCallsMembers | src/index.ts:140-158 | a batch connects only elements with a truthy `data-controller`, and disconnects exactly the removed element nodes |
| Applications.DisconnectController | src/index.ts:186 | one controller's `disconnect()` empties its stack and removes exactly the listeners it held (corrected removal keys; see Findings) |
| Applications.DisconnectAll | src/index.ts:186 | disconnecting every controller of a slot removes exactly the listeners they held (corrected removal keys; see Findings) |
| Applications.Application.constructor | src/index.ts:103-106 | the root is the given element or the document element, and every table starts empty |
| Applications.Application.Register | src/index.ts:117-122 | a registration under a name replaces any earlier one and changes nothing else |
| Applications.Application.NewControllerId | src/index.ts:251-254 | the counter goes up by one and the id is its new value in decimal, different from every id issued before |
| Applications.Application.ConnectNew | src/index.ts:224-227 | a new controller of the admitted class joins the slot and runs its `connect()` once |
| Applications.Application.ConnectIdentifier | src/index.ts:210-228 | one listed name is logged when unregistered, skipped when an instance is present, and otherwise adds one connected controller |
| Applications.Application.ConnectEach | src/index.ts:210-228 | the slot grows by exactly the admitted controllers; the log grows by the unregistered names; the listener list grows by what their `connect()` calls install |
| Applications.Application.AssignId | src/index.ts:205-208 | reuses the persisted id or allocates the next one; writes it to the element; makes sure a slot exists |
| Applications.Application.Connect | src/index.ts:203-229 | as `AssignId` plus `ConnectEach` for the names listed on the element, recorded as one connect call |
| Applications.Application.DisconnectNode | src/index.ts:181-189 | a visited element with a truthy id has its slot's controllers disconnected and the slot deleted; any other element changes nothing |
| Applications.Application.DisconnectEach | src/index.ts:181-189 | the visited ids' slots are deleted, their controllers emptied, and exactly their listeners removed (corrected removal keys; see Findings) |
| Applications.Application.Disconnect | src/index.ts:173-190 | `disconnect` deletes exactly the slots of the visited ids, empties their controllers' stacks, removes exactly their listeners (corrected removal keys; see Findings), and keeps every other controller's stack and the attributes |
| Applications.ConnectKeepsSlots | src/index.ts:205-208 | one `connect` keeps every element's id and slot, only appending to the slot it uses, and gives its element a slot |
| Applications.AnyInstancePrefix | src/index.ts:220 | an instance in a slot stays there when the slot grows at the end |
| Applications.ConnectCovers | src/index.ts:203-229 | after `connect(el)`, `el`'s slot holds an instance of the class of every registered name it lists |
| Applications.CoveredKept | src/index.ts:236-245 | a later `connect` keeps an earlier element covered |
| Applications.CoveredStep | src/index.ts:240-244 | visiting one more node keeps the earlier ones covered and covers the new one if it was connected |
| Applications.Application.ConnectNode | src/index.ts:240-244 | a visited node is connected exactly when its `data-controller` is truthy, and then its slot holds an instance of every registered name it lists; existing slots keep their id and only grow |
| Applications.Application.ConnectAll | src/index.ts:236-245 | `connect` runs on exactly the root and descendants with a truthy `data-controller`, in document order; every such element ends with a slot holding an instance of every registered name it lists; every slot held before keeps its id and only grows |
| Applications.Application.Start | src/index.ts:128-131 | `start` runs `connectAll` on the root element, covering every connected element |
| Applications.Application.ConnectAddedNode | src/index.ts:142-148 | an added element node gets `connectAll`; other nodes are skipped |
| Applications.Application.ConnectAdded | src/index.ts:142-148 | `connectAll` runs for each added element node, in order |
| Applications.Application.DisconnectRemovedNode | src/index.ts:150-156 | a removed element node gets `disconnect`; other nodes are skipped |
| Applications.Application.DisconnectRemoved | src/index.ts:150-156 | `disconnect` runs for each removed element node, in order |
| Applications.Application.HandleRecord | src/index.ts:141-157 | within a record, the added nodes are connected first, then the removed nodes disconnected |
| Applications.Application.HandleMutations | src/index.ts:140-158 | the batch makes exactly the connect and disconnect calls of its records, record by record, and logs what their `connectAll` calls log |

## Left out

- The `MutationObserver`: its construction and the `observe` call are browser plumbing (src/index.ts:105, 130). `HandleMutations` takes the records as a list.
- The real DOM and CSS selectors. The document is an attribute table plus ordered descendant lists. Selector matching becomes a predicate on `data-*` entries. `addEventListener` and `removeEventListener` act on the shared `ListenerRegistry`.
- `inspect()` and the text of the log and error messages (src/index.ts:6-12, 214-216, 430-432). The log records `ControllerNotFound(name, element)`. `target` returns `TargetNotFound` instead of throwing.
- Event dispatch by the browser: capture and bubble phases, `once` removing a listener after its first run, and `passive`. `once` and `passive` are recorded on the listener and otherwise passed through.
- `callback.bind(this)`: the callback is an opaque value, already bound.
- Subclass code: a subclass's `connect()` is modelled as its list of `on` calls. An overriding `disconnect()` is assumed to be the base one, as the documentation requires of subclasses (src/index.ts:491-495).
- Changes to `targetMapping` and `keyMapping` at run time: both are parameters, and the defaults are given as constants.
- The test files and `eslint.config.mjs`: they are browser tests and tooling.
- Applications.Application.HandleMutations: states the calls and the log of the batch, and that no `data-controller` attribute changes. It does not state the final association table and listener lists, which depend on how the calls interleave.
- Applications.Application.Start: states only the `connectAll` part; observing mutations is not modelled.
- Applications.Application.ConnectAll: states which `connect` calls run, the log, that every connected element is covered and that every earlier slot keeps its id and only grows. It does not state the exact final slots, the id counter or the listener lists; those are stated per call by `Applications.Application.Connect`.
- JsStrings.ToLower: maps only `A`-`Z`. JavaScript's `toLowerCase` applies full Unicode case mapping, which can also change the length (`"İ".toLowerCase()` has two code units). A `keyMapping` entry or an event key outside ASCII can therefore match in the code and not in the model, and `Conditions.KeyCaseIgnored` holds only for ASCII letter case.
- Conditions.Alias: `targetMapping[name]` on a plain object also finds the members of `Object.prototype`. A target named like one of them (`toString`, `constructor`) resolves in the code to a function, and `addEventListener` on it throws. The model treats such a name as unmapped.
- Conditions.KeyboardCondition: `keyMapping[key]` likewise finds `Object.prototype` members. For a key such as `constructor` the code calls `toLowerCase` on a function and throws when a keyboard event arrives. The model treats such a key as unmapped, so the condition is false.
- Applications.Application.ConnectIdentifier: `this.registrations[identifier]` also finds `Object.prototype` members. The code then constructs an `Object` for a name like `constructor`, or skips it, and calling its `connect()` throws. The model treats such a name as unregistered and logs it.
- Controllers.Controller.On: the listener it installs keeps the capture flag in its removal key (the corrected behaviour, see Findings). The source's key is `Controllers.AsWrittenOffs`.
- Parsing an expression without `->` is excluded by a precondition, because the code throws there.
- Integer widths: the controller counter is an unbounded natural number. JavaScript numbers lose precision above 2^53, which the model does not capture.

## Findings

| source | as written | input that shows it | evidently intended | confidence | as-written member | corrected member |
|---|---|---|---|---|---|---|
| src/index.ts:403-404 | the removal function calls `removeEventListener(descriptor.event, trigger)` without the options passed to `addEventListener`, so it always removes the non-capture listener | `this.on("@window->click", cb, true)` and then `disconnect()`: the capture listener is still registered on the window and `cb` runs on later clicks | `disconnect()` removes every listener `on` added, so the removal must pass the same capture flag | high (not executed) | Controllers.AsWrittenOffLeaksCaptureListeners | Controllers.OnThenDisconnect |
