# Form watcher model

A Dafny model of the form watcher of `drupal-form-watcher.js`: the jQuery
plugin `$.FormWatcher` that watches a Drupal form for two things: whether all
of its required fields are filled (`required`), and whether any field has
changed since the form was first seen (`modified`).

The form is a sequence of `Field` records. Each record holds an optional
`name`, a tag, an optional `type` attribute, a value, three flags saying
whether an enclosing `.form-item`, `.form-group` or date/radios container
holds a `.form-required` marker, and the text of the first sibling `label`.
The output of `serializeArray()` is a sequence of `(name, value)` pairs. The
clock is a parameter `now`. A JavaScript object becomes an ordered
dictionary: its keys in insertion order plus a map (`Objects.Dict`).
Assigning a key (`Objects.Put`) keeps an existing key in its place and
appends a new one.

The modules follow the source's structure:

- `Js` defines the value domain (`undefined` or a string), loose `!=` on it,
  and ASCII `toLowerCase`.
- `Form` defines the field record and the prefix functions over it:
  - the names seen so far;
  - the key order they produce;
  - the first and the last field carrying a name.
- `Serialization` models:
  - `isFieldRequired`;
  - the emptiness rule;
  - the three loops of `drupalFormSerialize` as three methods, proved against
    the per-name descriptor `Describe`;
  - `checkFormRequiredFields`.
- `Snapshot` models:
  - `UpdateData`'s refresh of the current snapshot (`Refreshed`);
  - the baseline diff of `GetDiff`;
  - the label list of `GetChangedLabels`.
- `Watcher` describes the watcher's whole state twice:
  - as a value, `State`, with one transition function per operation;
  - as the class `FormWatcher`, whose fields the methods update in place.
  Every method promises that its new state is the one its transition
  function computes. The callbacks invoked and the `formwatcher:modified`
  event dispatched are appended to a log of effects. The form element's
  class list is a set, which `toggleClass` edits.

Two behaviours of `UpdateData` are kept as the code has them:

- **The loop runs one index too far.** It runs while `i <= length`
  (`drupal-form-watcher.js:264`). At the last index, `$(undefined)` has no
  name and the iteration is skipped. `RecordControls` loops while
  `i <= |inputs|` and sees `None` at that index.
- **The label carries over.** `var label` (`drupal-form-watcher.js:265`) is
  scoped to the whole function and is never reset. A named control without a
  sibling label is recorded with the label of the last earlier named control
  that had one. `LabelBefore` gives the variable's value after each control.
  `LabelCarriesOver` and `InheritedLabel` state the consequence.

## Model

| member | source | states |
|---|---|---|
| Js.LooseNotEquals | drupal-form-watcher.js:291 | On strings and `undefined`, loose `!=` holds exactly when the two values differ |
| Js.Lower | drupal-form-watcher.js:104 | `toLowerCase` keeps the length and lower-cases each character |
| Js.LowerIsSubmit | drupal-form-watcher.js:74-76 | The lower-cased type is `submit` exactly when the attribute spells `submit` in any mix of cases |
| Objects.Empty | drupal-form-watcher.js:93 | The object literal `{}` has no keys |
| Objects.Put | drupal-form-watcher.js:274-277 | Assigning `obj[k] = v` sets `k` to `v`; an existing key keeps its place, and a new key is appended at the end |
| Form.NameSet | drupal-form-watcher.js:97-100 | Every name carried by one of the first `n` fields is collected |
| Form.NameSetMembers | drupal-form-watcher.js:97-100 | A name is collected exactly when one of the first `n` fields carries it; unnamed fields contribute nothing |
| Form.AddNames | drupal-form-watcher.js:106-109 | The keys after assigning each name in turn are the old keys, kept in place as a prefix, plus every name assigned and nothing else; distinct keys stay distinct |
| Form.AddNamesFirstOrder | drupal-form-watcher.js:95-117 | The keys appended after the old ones are field names, ordered by the first field that carries each |
| Form.AddNamesNoNew | drupal-form-watcher.js:274 | Assigning only names that are already keys adds no key and keeps the order |
| Form.FirstNamed | drupal-form-watcher.js:106-108 | Finds the first field carrying a name: it carries the name and no earlier field does |
| Form.LastNamed | drupal-form-watcher.js:274-277 | Finds the last field carrying a name: it carries the name and no later field does |
| Serialization.IsFieldRequired | drupal-form-watcher.js:66-90 | A BUTTON is never required, nor is an INPUT whose type is `submit` in any case; any other control is required exactly when one of its three container kinds holds a required marker |
| Serialization.IsEmptyValue | drupal-form-watcher.js:130-141 | `undefined` and `""` are empty; a SELECT holding `"empty"` is empty; any other defined value is non-empty |
| Serialization.Blank | drupal-form-watcher.js:109-116 | The first loop's descriptor holds the control, its tag, its lower-cased type exactly when it is an INPUT, no value, `isEmpty` set, and whether the control is required |
| Serialization.SerializedValue | drupal-form-watcher.js:118-123 | A name's serialised value, when defined, is the value of some pair carrying that name |
| Serialization.LastPairWins | drupal-form-watcher.js:118-123 | The serialised value of a name is `undefined` exactly when no pair carries the name; otherwise it is the value of the last pair that does |
| Serialization.Describe | drupal-form-watcher.js:95-142 | The descriptor of a name holds the first control carrying that name, its tag, and whether that control is required |
| Serialization.DescriptorOfName | drupal-form-watcher.js:95-142 | A descriptor's metadata comes from the first control of its name. Its value is the file input's own value for a file input, and the last pair's value otherwise. `isEmpty` follows the emptiness rule |
| Serialization.Serialize | drupal-form-watcher.js:91-144 | There is one entry per distinct name, in first-occurrence order, with no entry for unnamed controls; each entry is that name's descriptor |
| Serialization.CollectControls | drupal-form-watcher.js:95-117 | Creates a blank descriptor for the first control of each name; later controls with the same name and unnamed controls are skipped |
| Serialization.OverlayPairs | drupal-form-watcher.js:118-123 | Pairs whose name is not a key are ignored; every key takes its last pair's value; keys and order are unchanged |
| Serialization.FinalizeOne | drupal-form-watcher.js:126-141 | One pass of the third loop body: a file input takes the control's own value, then emptiness is decided |
| Serialization.FinalizeAll | drupal-form-watcher.js:124-142 | Every descriptor is finalised; keys and order are unchanged |
| Serialization.PendingAmong | drupal-form-watcher.js:152-156 | A key is pushed exactly when its descriptor is required and empty; distinct keys give a list without repeats |
| Serialization.RequiredPending | drupal-form-watcher.js:148-158 | The names `checkFormRequiredFields` returns are exactly the form's names whose descriptor is required and empty, each once |
| Serialization.PendingAmongOrder | drupal-form-watcher.js:152-156 | The pushed names keep the order they have among the keys |
| Serialization.PendingInFormOrder | drupal-form-watcher.js:148-158 | The pending names are names of the form, ordered by the first control that carries each |
| Serialization.CheckFormRequiredFields | drupal-form-watcher.js:148-158 | Returns the required-and-empty names in the serialiser's key order |
| Serialization.RequiredComplete | drupal-form-watcher.js:148-158 | Nothing is pending exactly when no named control's descriptor is both required and empty |
| Serialization.NeverPending | drupal-form-watcher.js:69-79 | A name whose first control is a button or a submit input is never pending |
| Snapshot.Inputs | drupal-form-watcher.js:263 | Only `input, textarea, select` are visited (buttons are not), and no control is added |
| Snapshot.InputsKeepOrder | drupal-form-watcher.js:263 | The visited controls keep document order and each is visited once: they sit at strictly increasing positions of the form, and every control but the buttons is among them |
| Snapshot.LabelBefore | drupal-form-watcher.js:265-273 | The `label` variable, once defined, holds the sibling label of some named control already visited |
| Snapshot.LabelCarriesOver | drupal-form-watcher.js:265-273 | The `label` variable is `undefined` until a named control with a sibling label is met, and then holds the last such label |
| Snapshot.CapturedAt | drupal-form-watcher.js:274-277 | The entry recorded for a control holds its value, and its own sibling label when it has one |
| Snapshot.LabelStep | drupal-form-watcher.js:270-273 | A visit changes `label` only at a named control that has a sibling label |
| Snapshot.Refreshed | drupal-form-watcher.js:264-278 | The refreshed snapshot is a well-formed object that keeps every old key |
| Snapshot.RefreshedMembers | drupal-form-watcher.js:274-277 | After the refresh, the keys are exactly the old keys plus every name seen |
| Snapshot.RefreshedOrder | drupal-form-watcher.js:274-277 | Old keys keep their places; new names follow in first-occurrence order |
| Snapshot.RefreshedLastWins | drupal-form-watcher.js:264-278 | Each name seen holds the entry of the last control carrying it: that control's value and the label carried to it. Other keys keep their entries |
| Snapshot.InheritedLabel | drupal-form-watcher.js:265-277 | A named control without a sibling label, right after one labelled `l`, is recorded with label `l` |
| Snapshot.RefreshIdempotent | drupal-form-watcher.js:261-282 | Refreshing again from the same form leaves the snapshot unchanged |
| Snapshot.ChangedKeys | drupal-form-watcher.js:290-291 | The baseline keys whose value differs (loose `!=`), without repeats |
| Snapshot.ChangedKeysOrder | drupal-form-watcher.js:290-297 | The changed keys come in the order the `for..in` loop visits the baseline keys |
| Snapshot.DiffOf | drupal-form-watcher.js:283-299 | Without a baseline the diff is empty. Otherwise it has exactly the baseline keys whose value differs, and each entry carries the initial value, the current value and the baseline label |
| Snapshot.DiffInBaselineOrder | drupal-form-watcher.js:289-299 | The diff's keys are baseline keys, listed in baseline order |
| Snapshot.NothingChanged | drupal-form-watcher.js:290-298 | If no baseline value changed, no key is reported |
| Snapshot.UnchangedMeansEmptyDiff | drupal-form-watcher.js:290-298 | Unchanged values give an empty diff |
| Snapshot.Diff | drupal-form-watcher.js:289-299 | The `for..in` loop over the baseline builds exactly the diff |
| Snapshot.LabelsOf | drupal-form-watcher.js:304-308 | The changed labels are one per diff entry, each that entry's baseline label, in the diff's order |
| Snapshot.CollectLabels | drupal-form-watcher.js:304-308 | One label per diff entry, in the diff's order |
| Watcher.Fresh | drupal-form-watcher.js:53-61 | A new watcher has no baseline, an empty snapshot and no watches, and satisfies the state invariant |
| Watcher.TriggersOf | drupal-form-watcher.js:166 | Defaulting `triggers[watch]` to `[]` yields the watch's list when it has one, and an empty list otherwise |
| Watcher.AddTriggerStep | drupal-form-watcher.js:160-172 | An empty element set gives `false` with nothing changed. Otherwise the result is `true` and one record is appended to that watch's list, creating the list if absent; nothing else changes |
| Watcher.AfterUpdate | drupal-form-watcher.js:261-282 | After an update a baseline exists, the current snapshot has lost no key, and the state invariant holds; in particular every baseline key is a current key |
| Watcher.BaselineCapturedOnce | drupal-form-watcher.js:279-281 | The first update captures the baseline as the snapshot it took. Later updates never change the baseline. An update touches only the two snapshots |
| Watcher.AddWatchStep | drupal-form-watcher.js:173-245 | An already registered watch gives `true` with nothing changed, and an unknown name gives `false` with nothing changed. A new `required` or `modified` watch is registered with its recompute function and `lastrun = now`, and its trigger list is created if absent; classes and effects are untouched. `required` leaves both snapshots alone; `modified` first takes the snapshot `AfterUpdate` computes |
| Watcher.AddWatchIdempotent | drupal-form-watcher.js:178-181 | Adding the same watch a second time returns `true` and changes nothing |
| Watcher.AfterRequiredCheck | drupal-form-watcher.js:184-194 | A `required` run keeps the state invariant |
| Watcher.AfterModifiedCheck | drupal-form-watcher.js:208-223 | A `modified` run keeps the state invariant |
| Watcher.AfterRun | drupal-form-watcher.js:184-223 | Running either recompute function keeps the state invariant |
| Watcher.Toggle | drupal-form-watcher.js:191-192 | `toggleClass(c, on)` leaves `c` present exactly when `on` and keeps every other class |
| Watcher.RequiredCallsStep | drupal-form-watcher.js:188-190 | Calling one more trigger appends one callback effect |
| Watcher.ModifiedCallsStep | drupal-form-watcher.js:212-214 | Calling one more trigger appends one callback effect |
| Watcher.RequiredCheckReport | drupal-form-watcher.js:185-193 | `completed` holds exactly when nothing is pending, and the complete and incomplete classes take opposite values. Every trigger is called in order with `(completed, pending)`. The snapshots are untouched, and of the watches only the `required` watch's `lastrun` changes |
| Watcher.ModifiedCheckReport | drupal-form-watcher.js:208-222 | A `modified` run refreshes `current` and keeps the baseline. `modified` holds exactly when some baseline value changed, and the modified and default classes take opposite values. Earlier effects are kept; every trigger is called once, in order, with `(modified, labels)`; the last effect is the event carrying the changed labels |
| Watcher.ModifiedCheckCallbacks | drupal-form-watcher.js:212-214 | Earlier effects are kept, then every trigger of the watch is called once, in registration order, with the run's verdict and labels, and the event follows |
| Watcher.ModifiedReport | drupal-form-watcher.js:210-222 | Reporting leaves both snapshots and the triggers alone; of the watches, only the `modified` watch's `lastrun` changes, to now |
| Watcher.ModifiedReportFacts | drupal-form-watcher.js:210-221 | The classes and the final event follow whether any label was collected; earlier effects are kept and every trigger is called once, in order, before the event |
| Watcher.KeyupRuns | drupal-form-watcher.js:199 | With millisecond timestamps, the keyup guard passes exactly when at least 171 ms have passed since the last run |
| Watcher.KeyupThrottle | drupal-form-watcher.js:196-202 | After a run at `t1`, a keyup at `t2` runs the watch again exactly when `t2 - t1 > 170` |
| Watcher.UntouchedFormNotModified | drupal-form-watcher.js:207-235 | For any watcher without a baseline yet, whatever triggers and `required` watch it carries: if the form is unchanged since the `modified` watch was added, a run reports it unmodified, with the default class and an event with no labels |
| Watcher.FormWatcher.constructor | drupal-form-watcher.js:53-61 | Starts in the state `Fresh` |
| Watcher.FormWatcher.AddTrigger | drupal-form-watcher.js:160-172 | Result and new fields are those of `AddTriggerStep` |
| Watcher.FormWatcher.AddWatch | drupal-form-watcher.js:173-245 | Result and new fields are those of `AddWatchStep` |
| Watcher.FormWatcher.ForceWatch | drupal-form-watcher.js:246-256 | An unregistered watch gives `false` with nothing changed. A registered watch runs its function and returns `undefined` |
| Watcher.FormWatcher.OnKeyup | drupal-form-watcher.js:196-202 | The keyup handler runs the watch exactly when more than 170 ms have passed since its last run, and otherwise changes nothing |
| Watcher.FormWatcher.Recompute | drupal-form-watcher.js:184-223 | Runs the watch's recompute function, leaving the state `AfterRun` computes |
| Watcher.FormWatcher.RunRequiredCheck | drupal-form-watcher.js:184-194 | The `required` function: new fields are those of `AfterRequiredCheck` |
| Watcher.FormWatcher.RunModifiedCheck | drupal-form-watcher.js:208-223 | The `modified` function: new fields are those of `AfterModifiedCheck` |
| Watcher.FormWatcher.Init | drupal-form-watcher.js:257-260 | `Init` is one update |
| Watcher.FormWatcher.UpdateData | drupal-form-watcher.js:261-282 | New snapshots are those of `AfterUpdate` |
| Watcher.FormWatcher.RecordControls | drupal-form-watcher.js:264-278 | The `i <= length` loop leaves `current` as `Refreshed` describes it |
| Watcher.FormWatcher.GetDiff | drupal-form-watcher.js:283-300 | Updates first when asked to, then returns the diff of the baseline against the current snapshot |
| Watcher.FormWatcher.GetChangedLabels | drupal-form-watcher.js:301-309 | The labels of that diff, in its order |

## Left out

- DOM and jQuery plumbing is abstracted into the field records and the pairs. This covers `closest`, `find`, `siblings`, `serializeArray`, `val`, `.on(...)` binding, `toggleClass` and `trigger`. The model starts from the fields a real DOM would yield.
- The bodies of the trigger handlers are caller code. Only the order and arguments of their calls are logged. A handler that re-enters the watcher is not modelled.
- When several handlers are bound to one event, jQuery dispatches them one after another. Each watch's change and keyup handler is modelled as its own method (`Recompute`, `OnKeyup`).
- The clock `getTickCount` is a parameter. One `now` is used per event, so `lastrun` is set to the keyup's `now` and not to a second clock reading at the end of the run.
- Field values are strings or `undefined`. A multi-select's array value, which loose `!=` compares by reference, is not modelled.
- `toLowerCase` is modelled on ASCII letters only.
- The `trim()` of label text is not modelled: the sibling label text is taken as already trimmed.
- JavaScript enumerates integer-like keys of an object first, in numeric order. The model uses insertion order for all keys.
- Serialization.Serialize, Serialization.CheckFormRequiredFields, Serialization.RequiredPending, Watcher.AfterRequiredCheck, Watcher.AfterRun, Watcher.FormWatcher.RunRequiredCheck, Watcher.FormWatcher.Recompute, Watcher.FormWatcher.OnKeyup and Watcher.FormWatcher.ForceWatch require every named INPUT to have a `type` attribute whenever the `required` check runs. The same holds for the lemmas about them. Without one, `attr('type').toLowerCase()` throws in the source.
- Watcher.FormWatcher.GetDiff and Watcher.FormWatcher.GetChangedLabels take `update` as a boolean. The source defaults an omitted `update` to `true` and tests any other value for truthiness (`drupal-form-watcher.js:285-286`). An omitted argument corresponds to passing `true`, and non-boolean arguments are not modelled.
- Objects.Put, Serialization.Serialize, Watcher.AddTriggerStep, Watcher.AddWatchStep and Watcher.FormWatcher.ForceWatch treat a name as absent until it is assigned. In the source, a name such as `constructor` or `toString` already reads as a property every object inherits, so `typeof obj[name] !== 'undefined'` and `obj[name] || []` see it (`drupal-form-watcher.js:106`, `:119`, `:166`, `:179`, `:248`). A control with such a name then gets no descriptor. `addTrigger` with it stores the inherited function and throws a TypeError at `:167`, which calls `push` on it. `addWatch` with it returns `true` without registering. `forceWatch` with it throws a TypeError at `:251`, reading `length` of an undefined `functions`. Assigning `__proto__` is not modelled either. Names are assumed not to collide with inherited properties.
- `GetData` only returns the data object, and `getElementTag` only reads the tag. Both are folded into the records.
- The form element is a single element, and its class list is one set.
- `drupal-ajax-overrides.js` is not part of this model. It only wraps the `Drupal.ajax` prototype of a library not shown.
- `drupal-get.js` is not part of this model. It only builds settings for `Drupal.ajax` around an id counter.
