/**
 * `$.FormWatcher`: the baseline and current snapshots, the registry of named
 * watches and of trigger callbacks, and what a watch does when it runs.
 *
 * The watcher's state is described twice: as the value `State`, on which the
 * functions `AddTriggerStep`, `AddWatchStep`, `AfterUpdate` and `AfterRun`
 * say what each operation leaves behind, and as the class `FormWatcher`,
 * whose fields the methods update in place as the source does; each method
 * promises that its new state is the one the matching function computes.
 */
module Watcher {
  import opened Js
  import opened Objects
  import opened Form
  import opened Serialization
  import opened Snapshot

  /** A caller-supplied trigger callback, known only by identity. */
  type HandlerId = nat

  /** A DOM node that a trigger callback is called on. */
  type NodeId = nat

  const REQUIRED: string := "required"
  const MODIFIED: string := "modified"
  const KEYUP_THROTTLE_MS: int := 170
  const REQUIRED_COMPLETE: string := "form-required-complete"
  const REQUIRED_INCOMPLETE: string := "form-required-incomplete"
  const STATUS_MODIFIED: string := "form-status-modified"
  const STATUS_DEFAULT: string := "form-status-default"

  /** One `{handler, element}` record of `triggers[watch]`. */
  datatype Trigger = Trigger(handler: HandlerId, target: seq<NodeId>)

  /** The recompute function of a watch: the closure `func` in `addWatch`. */
  datatype Check = RequiredCheck | ModifiedCheck

  /** One record of `watches`: its recompute functions and when it last ran (ms). */
  datatype Watch = Watch(functions: seq<Check>, lastrun: int)

  /** What a run does outside the watcher: callback invocations and the custom event. */
  datatype Effect =
    | RequiredCallback(handler: HandlerId, target: seq<NodeId>, completed: bool, pending: seq<string>)
    | ModifiedCallback(handler: HandlerId, target: seq<NodeId>, modified: bool, labels: seq<Option<string>>)
    | ModifiedEvent(modified: bool, modifiedFields: seq<Option<string>>)

  /**
   * The watcher's fields: `data.initial` (`None` while no baseline exists),
   * `data.current`, `triggers`, `watches`, the class list of the form element,
   * and the effects produced so far, in order.
   */
  datatype State = State(
    initial: Option<Dict<Entry>>,
    current: Dict<Entry>,
    triggers: map<string, seq<Trigger>>,
    watches: map<string, Watch>,
    classes: set<string>,
    log: seq<Effect>)

  predicate IsWatchName(w: string)
  {
    w == REQUIRED || w == MODIFIED
  }

  function CheckFor(w: string): Check
    requires IsWatchName(w)
  {
    if w == REQUIRED then RequiredCheck else ModifiedCheck
  }

  function WatchOf(c: Check): string
  {
    match c
    case RequiredCheck => REQUIRED
    case ModifiedCheck => MODIFIED
  }

  /**
   * What every reachable state satisfies: before the baseline exists the
   * current snapshot is still `{}`; afterwards every baseline key is a
   * current key; only the two known watches exist, each with its trigger list
   * and its one recompute function; and a `modified` watch implies a baseline.
   */
  predicate StateValid(s: State)
  {
    && s.current.Valid()
    && (s.initial.None? ==> s.current.keys == [])
    && (s.initial.Some? ==> Covers(s.initial.value, s.current))
    && (forall w :: w in s.watches ==>
          IsWatchName(w) && w in s.triggers && s.watches[w].functions == [CheckFor(w)])
    && (MODIFIED in s.watches ==> s.initial.Some?)
  }

  /** The watcher `new $.FormWatcher(form)` creates. */
  function Fresh(formClasses: set<string>): (s: State)
    ensures StateValid(s)
  {
    State(None, Empty(), map[], map[], formClasses, [])
  }

  /** `self.triggers[watch] || []`: the watch's list, or a new empty one when it has none. */
  function TriggersOf(triggers: map<string, seq<Trigger>>, w: string): (r: seq<Trigger>)
    ensures w in triggers ==> r == triggers[w]
    ensures w !in triggers ==> r == []
  {
    if w in triggers then triggers[w] else []
  }

  /**
   * `addTrigger`: fails and changes nothing when the element set is empty;
   * otherwise appends one record at the end of that watch's list, creating
   * the list if needed, and touches nothing else.
   */
  function AddTriggerStep(s: State, w: string, target: seq<NodeId>, handler: HandlerId): (r: (bool, State))
    requires StateValid(s)
    ensures StateValid(r.1)
    ensures r.0 <==> target != []
    ensures !r.0 ==> r.1 == s
    ensures r.0 ==> && r.1.(triggers := s.triggers) == s
                    && r.1.triggers.Keys == s.triggers.Keys + {w}
                    && r.1.triggers[w] == TriggersOf(s.triggers, w) + [Trigger(handler, target)]
                    && forall v :: v in s.triggers && v != w ==> r.1.triggers[v] == s.triggers[v]
  {
    if target == [] then (false, s)
    else (true, s.(triggers := s.triggers[w := TriggersOf(s.triggers, w) + [Trigger(handler, target)]]))
  }

  /**
   * `UpdateData`: refresh the current snapshot from the form; the first call
   * also stores a copy of it as the baseline. The current snapshot never
   * loses a key.
   */
  function AfterUpdate(s: State, form: seq<Field>): (r: State)
    requires StateValid(s)
    ensures StateValid(r)
    ensures r.initial.Some?
    ensures s.current.vals.Keys <= r.current.vals.Keys
  {
    var cur := Refreshed(s.current, Inputs(form), |Inputs(form)|);
    s.(current := cur, initial := if s.initial.None? then Some(cur) else s.initial)
  }

  /**
   * The baseline is captured once, by the first update, as the snapshot just
   * taken, and never changes afterwards; an update touches nothing but the
   * two snapshots.
   */
  lemma BaselineCapturedOnce(s: State, first: seq<Field>, later: seq<Field>)
    requires StateValid(s)
    ensures var s1 := AfterUpdate(s, first);
      && (s.initial.None? ==> s1.initial == Some(s1.current))
      && (s.initial.Some? ==> s1.initial == s.initial)
      && AfterUpdate(s1, later).initial == s1.initial
      && s1.triggers == s.triggers && s1.watches == s.watches && s1.classes == s.classes && s1.log == s.log
  {
  }

  /**
   * `addWatch`: an already registered name succeeds without change; an
   * unknown name fails without change; `required` and `modified` are
   * registered with their recompute function and `lastrun` set to now, and
   * `modified` first takes a snapshot.
   */
  function AddWatchStep(s: State, w: string, form: seq<Field>, now: int): (r: (bool, State))
    requires StateValid(s)
    ensures StateValid(r.1)
    ensures w in s.watches ==> r == (true, s)
    ensures w !in s.watches ==> (r.0 <==> IsWatchName(w))
    ensures !r.0 ==> r.1 == s
    ensures r.0 ==> w in r.1.watches && r.1.watches[w].functions == [CheckFor(w)]
    ensures w !in s.watches && r.0 ==> r.1.watches[w].lastrun == now
    ensures w !in s.watches && w == REQUIRED ==> r.1.current == s.current && r.1.initial == s.initial
    ensures w !in s.watches && w == MODIFIED ==> r.1.initial.Some?
    ensures w !in s.watches && r.0 ==>
      && r.1.triggers == s.triggers[w := TriggersOf(s.triggers, w)]
      && r.1.watches == s.watches[w := Watch([CheckFor(w)], now)]
      && r.1.classes == s.classes && r.1.log == s.log
    ensures w !in s.watches && w == MODIFIED ==>
      r.1.initial == AfterUpdate(s, form).initial && r.1.current == AfterUpdate(s, form).current
  {
    if w in s.watches then (true, s)
    else if !IsWatchName(w) then (false, s)
    else
      // `modified` takes its snapshot before the watch is recorded
      var u := if w == MODIFIED then AfterUpdate(s, form) else s;
      (true, u.(triggers := u.triggers[w := TriggersOf(u.triggers, w)],
                watches := u.watches[w := Watch([CheckFor(w)], now)]))
  }

  /** Registering the same watch twice is the same as registering it once. */
  lemma AddWatchIdempotent(s: State, w: string, form: seq<Field>, now: int, form2: seq<Field>, now2: int)
    requires StateValid(s)
    ensures var r := AddWatchStep(s, w, form, now);
      r.0 ==> AddWatchStep(r.1, w, form2, now2) == (true, r.1)
  {
  }

  function RequiredCalls(ts: seq<Trigger>, completed: bool, pending: seq<string>): seq<Effect>
  {
    seq(|ts|, i requires 0 <= i < |ts| => RequiredCallback(ts[i].handler, ts[i].target, completed, pending))
  }

  function ModifiedCalls(ts: seq<Trigger>, modified: bool, labels: seq<Option<string>>): seq<Effect>
  {
    seq(|ts|, i requires 0 <= i < |ts| => ModifiedCallback(ts[i].handler, ts[i].target, modified, labels))
  }

  lemma RequiredCallsStep(ts: seq<Trigger>, i: nat, completed: bool, pending: seq<string>)
    requires i < |ts|
    ensures RequiredCalls(ts[..i + 1], completed, pending) ==
      RequiredCalls(ts[..i], completed, pending) + [RequiredCallback(ts[i].handler, ts[i].target, completed, pending)]
  {
  }

  lemma ModifiedCallsStep(ts: seq<Trigger>, i: nat, modified: bool, labels: seq<Option<string>>)
    requires i < |ts|
    ensures ModifiedCalls(ts[..i + 1], modified, labels) ==
      ModifiedCalls(ts[..i], modified, labels) + [ModifiedCallback(ts[i].handler, ts[i].target, modified, labels)]
  {
  }

  /** `toggleClass(c, on)` on the form element: `c` present exactly when `on`, other classes kept. */
  function Toggle(classes: set<string>, c: string, on: bool): (r: set<string>)
    ensures c in r <==> on
    ensures forall x :: x != c ==> (x in r <==> x in classes)
  {
    if on then classes + {c} else classes - {c}
  }

  /**
   * A run of the `required` watch: the pending names, one callback per
   * trigger in registration order, the two classes, and `lastrun`.
   */
  function AfterRequiredCheck(s: State, form: seq<Field>, pairs: seq<Pair>, now: int): (r: State)
    requires StateValid(s) && REQUIRED in s.watches && NamedTypesPresent(form)
    ensures StateValid(r)
  {
    var pending := RequiredPending(form, pairs);
    var completed := !(|pending| > 0);
    s.(log := s.log + RequiredCalls(s.triggers[REQUIRED], completed, pending),
       classes := Toggle(Toggle(s.classes, REQUIRED_COMPLETE, completed), REQUIRED_INCOMPLETE, !completed),
       watches := s.watches[REQUIRED := s.watches[REQUIRED].(lastrun := now)])
  }

  /**
   * A run of the `modified` watch: refresh and diff, one callback per
   * trigger, the two classes, the `formwatcher:modified` event, and `lastrun`.
   */
  function AfterModifiedCheck(s: State, form: seq<Field>, now: int): (r: State)
    requires StateValid(s) && MODIFIED in s.watches
    ensures StateValid(r)
  {
    var u := AfterUpdate(s, form);
    ModifiedReport(u, LabelsOf(DiffOf(u.initial, u.current)), now)
  }

  /** The reporting half of a `modified` run, once the changed labels are known. */
  function ModifiedReport(u: State, labels: seq<Option<string>>, now: int): (r: State)
    requires MODIFIED in u.watches && MODIFIED in u.triggers
    ensures r.initial == u.initial && r.current == u.current && r.triggers == u.triggers
    ensures r.watches.Keys == u.watches.Keys && r.watches[MODIFIED] == u.watches[MODIFIED].(lastrun := now)
    ensures r.watches == u.watches[MODIFIED := u.watches[MODIFIED].(lastrun := now)]
  {
    var modified := |labels| > 0;
    u.(log := u.log + ModifiedCalls(u.triggers[MODIFIED], modified, labels) + [ModifiedEvent(modified, labels)],
       classes := Toggle(Toggle(u.classes, STATUS_MODIFIED, modified), STATUS_DEFAULT, !modified),
       watches := u.watches[MODIFIED := u.watches[MODIFIED].(lastrun := now)])
  }

  function AfterRun(s: State, c: Check, form: seq<Field>, pairs: seq<Pair>, now: int): (r: State)
    requires StateValid(s) && WatchOf(c) in s.watches
    requires c == RequiredCheck ==> NamedTypesPresent(form)
    ensures StateValid(r)
  {
    match c
    case RequiredCheck => AfterRequiredCheck(s, form, pairs, now)
    case ModifiedCheck => AfterModifiedCheck(s, form, now)
  }

  /** The keyup handler's guard: strictly more than 170 ms since the last run. */
  predicate KeyupRuns(s: State, w: string, now: int)
    requires w in s.watches
    ensures KeyupRuns(s, w, now) <==> now >= s.watches[w].lastrun + KEYUP_THROTTLE_MS + 1
  {
    now - s.watches[w].lastrun > KEYUP_THROTTLE_MS
  }

  /**
   * What a `required` run reports: `completed` exactly when no name is
   * pending; exactly one of the two classes; every trigger called in order
   * with `(completed, pending)`; the snapshots untouched.
   */
  lemma RequiredCheckReport(s: State, form: seq<Field>, pairs: seq<Pair>, now: int)
    requires StateValid(s) && REQUIRED in s.watches && NamedTypesPresent(form)
    ensures var r := AfterRequiredCheck(s, form, pairs, now);
            var pending := RequiredPending(form, pairs);
            var ts := s.triggers[REQUIRED];
      && (REQUIRED_COMPLETE in r.classes <==> pending == [])
      && (REQUIRED_INCOMPLETE in r.classes <==> pending != [])
      && |r.log| == |s.log| + |ts| && r.log[..|s.log|] == s.log
      && (forall i :: 0 <= i < |ts| ==>
            r.log[|s.log| + i] == RequiredCallback(ts[i].handler, ts[i].target, pending == [], pending))
      && r.initial == s.initial && r.current == s.current && r.triggers == s.triggers
      && r.watches == s.watches[REQUIRED := s.watches[REQUIRED].(lastrun := now)]
  {
  }

  /**
   * What a `modified` run reports: `modified` exactly when some baseline key
   * now holds a different value; exactly one of the two classes; the last
   * effect is the event carrying the labels of the changed fields.
   */
  lemma ModifiedCheckReport(s: State, form: seq<Field>, now: int)
    requires StateValid(s) && MODIFIED in s.watches
    ensures var r := AfterModifiedCheck(s, form, now);
            var d := DiffOf(r.initial, r.current);
      && r.initial == s.initial && r.initial.Some?
      && r.current == Refreshed(s.current, Inputs(form), |Inputs(form)|)
      && (STATUS_MODIFIED in r.classes <==> d.keys != [])
      && (STATUS_DEFAULT in r.classes <==> d.keys == [])
      && |r.log| > 0 && r.log[|r.log| - 1] == ModifiedEvent(d.keys != [], LabelsOf(d))
      && (var ts := s.triggers[MODIFIED];
          && |r.log| == |s.log| + |ts| + 1 && r.log[..|s.log|] == s.log
          && forall i :: 0 <= i < |ts| ==>
               r.log[|s.log| + i] == ModifiedCallback(ts[i].handler, ts[i].target, d.keys != [], LabelsOf(d)))
      && (d.keys != [] <==>
            exists k :: k in r.initial.value.vals &&
                        LooseNotEquals(r.initial.value.vals[k].value, r.current.vals[k].value))
  {
    var u := AfterUpdate(s, form);
    var d := DiffOf(u.initial, u.current);
    ModifiedReportFacts(u, LabelsOf(d), now);
    ModifiedCheckCallbacks(s, form, now);
    if d.keys != [] {
      assert d.keys[0] in d.vals;
    }
  }

  /**
   * The callbacks of a `modified` run: the effects logged before it are kept,
   * then every trigger of the watch is called once, in registration order,
   * with the run's verdict and labels, and then the event follows.
   */
  lemma ModifiedCheckCallbacks(s: State, form: seq<Field>, now: int)
    requires StateValid(s) && MODIFIED in s.watches
    ensures var r := AfterModifiedCheck(s, form, now);
            var d := DiffOf(r.initial, r.current);
            var ts := s.triggers[MODIFIED];
      && |r.log| == |s.log| + |ts| + 1 && r.log[..|s.log|] == s.log
      && forall i :: 0 <= i < |ts| ==>
           r.log[|s.log| + i] == ModifiedCallback(ts[i].handler, ts[i].target, d.keys != [], LabelsOf(d))
  {
    var u := AfterUpdate(s, form);
    var d := DiffOf(u.initial, u.current);
    assert u.log == s.log && u.triggers == s.triggers;
    assert AfterModifiedCheck(s, form, now) == ModifiedReport(u, LabelsOf(d), now);
    ModifiedReportFacts(u, LabelsOf(d), now);
  }

  /** The reporting half alone: the classes and the final event follow whether any label was collected. */
  lemma ModifiedReportFacts(u: State, labels: seq<Option<string>>, now: int)
    requires MODIFIED in u.watches && MODIFIED in u.triggers
    ensures var r := ModifiedReport(u, labels, now);
      && r.initial == u.initial && r.current == u.current
      && (STATUS_MODIFIED in r.classes <==> labels != [])
      && (STATUS_DEFAULT in r.classes <==> labels == [])
      && |r.log| > 0 && r.log[|r.log| - 1] == ModifiedEvent(labels != [], labels)
      && (var ts := u.triggers[MODIFIED];
          && |r.log| == |u.log| + |ts| + 1 && r.log[..|u.log|] == u.log
          && forall i :: 0 <= i < |ts| ==>
               r.log[|u.log| + i] == ModifiedCallback(ts[i].handler, ts[i].target, labels != [], labels))
  {
  }

  /**
   * Throttle: after a run at `t1`, a keyup at `t2` runs the watch again
   * exactly when `t2 - t1 > 170`.
   */
  lemma KeyupThrottle(s: State, c: Check, form: seq<Field>, pairs: seq<Pair>, t1: int, t2: int)
    requires StateValid(s) && WatchOf(c) in s.watches
    requires c == RequiredCheck ==> NamedTypesPresent(form)
    ensures var r := AfterRun(s, c, form, pairs, t1);
      WatchOf(c) in r.watches && (KeyupRuns(r, WatchOf(c), t2) <==> t2 - t1 > 170)
  {
  }

  /**
   * A form left as it was when the `modified` watch was added is reported
   * unmodified: no changed labels, the default class, and an event saying so.
   * This holds for any watcher that has no baseline yet, whatever triggers
   * and `required` watch it already carries.
   */
  lemma UntouchedFormNotModified(s: State, form: seq<Field>, t0: int, t1: int)
    requires StateValid(s) && s.initial.None?
    ensures var s1 := AddWatchStep(s, MODIFIED, form, t0).1;
            var r := AfterModifiedCheck(s1, form, t1);
      && STATUS_DEFAULT in r.classes && STATUS_MODIFIED !in r.classes
      && r.log[|r.log| - 1] == ModifiedEvent(false, [])
  {
    assert MODIFIED !in s.watches;
    var s1 := AddWatchStep(s, MODIFIED, form, t0).1;
    var inputs := Inputs(form);
    assert s1.current == Refreshed(s.current, inputs, |inputs|);
    assert s1.initial == Some(s1.current);
    RefreshIdempotent(s.current, inputs);
    var r := AfterModifiedCheck(s1, form, t1);
    assert r.current == s1.current;
    UnchangedMeansEmptyDiff(s1.current, s1.current);
  }

  class FormWatcher {
    var initial: Option<Dict<Entry>>
    var current: Dict<Entry>
    var triggers: map<string, seq<Trigger>>
    var watches: map<string, Watch>
    /** The class list of the watched form element. */
    var classes: set<string>
    /** Callbacks invoked and events dispatched by this watcher, in order. */
    var log: seq<Effect>

    function Snap(): State
      reads this
    {
      State(initial, current, triggers, watches, classes, log)
    }

    ghost predicate Valid()
      reads this
    {
      StateValid(Snap())
    }

    /** `new $.FormWatcher(element)` for a form whose class list is `formClasses`. */
    constructor (formClasses: set<string>)
      ensures Valid() && Snap() == Fresh(formClasses)
    {
      initial := None;
      current := Empty();
      triggers := map[];
      watches := map[];
      classes := formClasses;
      log := [];
    }

    method AddTrigger(w: string, target: seq<NodeId>, handler: HandlerId) returns (ok: bool)
      requires Valid()
      modifies this`triggers
      ensures Valid()
      ensures (ok, Snap()) == AddTriggerStep(old(Snap()), w, target, handler)
    {
      if |target| == 0 {
        return false;
      }
      triggers := triggers[w := TriggersOf(triggers, w)];
      triggers := triggers[w := triggers[w] + [Trigger(handler, target)]];
      ok := true;
      assert triggers == old(triggers)[w := TriggersOf(old(triggers), w) + [Trigger(handler, target)]];
    }

    method AddWatch(w: string, form: seq<Field>, now: int) returns (created: bool)
      requires Valid()
      modifies this`watches, this`triggers, this`current, this`initial
      ensures Valid()
      ensures (created, Snap()) == AddWatchStep(old(Snap()), w, form, now)
    {
      if w in watches {
        return true;
      }
      var functions: seq<Check> := [];
      created := false;
      if w == REQUIRED {
        functions := functions + [RequiredCheck];
        created := true;
      } else if w == MODIFIED {
        UpdateData(form);
        functions := functions + [ModifiedCheck];
        created := true;
      }
      if created {
        triggers := triggers[w := TriggersOf(triggers, w)];
        watches := watches[w := Watch(functions, now)];
      }
    }

    /**
     * `forceWatch`: `false` for an unregistered watch; otherwise runs the
     * watch's functions and returns `undefined` (here `None`).
     */
    method ForceWatch(w: string, form: seq<Field>, pairs: seq<Pair>, now: int) returns (r: Option<bool>)
      requires Valid()
      requires w == REQUIRED ==> NamedTypesPresent(form)
      modifies this`log, this`classes, this`watches, this`current, this`initial
      ensures Valid()
      ensures w !in old(watches) ==> r == Some(false) && Snap() == old(Snap())
      ensures w in old(watches) ==> r == None && Snap() == AfterRun(old(Snap()), CheckFor(w), form, pairs, now)
    {
      if w !in watches {
        return Some(false);
      }
      r := None;
      ghost var pre := Snap();
      var functions := watches[w].functions;
      if |functions| > 0 {
        for i := 0 to |functions|
          invariant Valid() && functions == [CheckFor(w)]
          invariant i == 0 ==> Snap() == pre
          invariant i == 1 ==> Snap() == AfterRun(pre, CheckFor(w), form, pairs, now)
        {
          Recompute(functions[i], form, pairs, now);
        }
      }
    }

    /**
     * The keyup handler of watch `w`: runs the watch only when more than
     * 170 ms have passed since it last ran.
     */
    method OnKeyup(w: string, form: seq<Field>, pairs: seq<Pair>, now: int) returns (ran: bool)
      requires Valid() && w in watches
      requires w == REQUIRED ==> NamedTypesPresent(form)
      modifies this`log, this`classes, this`watches, this`current, this`initial
      ensures Valid()
      ensures ran == KeyupRuns(old(Snap()), w, now)
      ensures Snap() == if ran then AfterRun(old(Snap()), CheckFor(w), form, pairs, now) else old(Snap())
    {
      ran := now - watches[w].lastrun > KEYUP_THROTTLE_MS;
      if ran {
        Recompute(CheckFor(w), form, pairs, now);
      }
    }

    /**
     * The recompute function `func` of a watch: bound to `change` as it is,
     * called by the keyup handler and by `forceWatch`.
     */
    method Recompute(c: Check, form: seq<Field>, pairs: seq<Pair>, now: int)
      requires Valid() && WatchOf(c) in watches
      requires c == RequiredCheck ==> NamedTypesPresent(form)
      modifies this`log, this`classes, this`watches, this`current, this`initial
      ensures Valid()
      ensures Snap() == AfterRun(old(Snap()), c, form, pairs, now)
    {
      match c {
        case RequiredCheck => RunRequiredCheck(form, pairs, now);
        case ModifiedCheck => RunModifiedCheck(form, now);
      }
    }

    method RunRequiredCheck(form: seq<Field>, pairs: seq<Pair>, now: int)
      requires Valid() && REQUIRED in watches && NamedTypesPresent(form)
      modifies this`log, this`classes, this`watches
      ensures Valid()
      ensures Snap() == AfterRequiredCheck(old(Snap()), form, pairs, now)
    {
      var pending := CheckFormRequiredFields(form, pairs);
      var completed := !(|pending| > 0);
      var ts := triggers[REQUIRED];
      var watch := watches[REQUIRED];
      var effects := log;
      for i := 0 to |ts|
        invariant Snap() == old(Snap())
        invariant effects == old(log) + RequiredCalls(ts[..i], completed, pending)
      {
        RequiredCallsStep(ts, i, completed, pending);
        effects := effects + [RequiredCallback(ts[i].handler, ts[i].target, completed, pending)];
      }
      assert ts[..|ts|] == ts;
      log := effects;
      classes := Toggle(classes, REQUIRED_COMPLETE, completed);
      classes := Toggle(classes, REQUIRED_INCOMPLETE, !completed);
      watches := watches[REQUIRED := watch.(lastrun := now)];
      assert Snap() == AfterRequiredCheck(old(Snap()), form, pairs, now);
    }

    method RunModifiedCheck(form: seq<Field>, now: int)
      requires Valid() && MODIFIED in watches
      modifies this`log, this`classes, this`watches, this`current, this`initial
      ensures Valid()
      ensures Snap() == AfterModifiedCheck(old(Snap()), form, now)
    {
      var labels := GetChangedLabels(true, form);
      ghost var u := Snap();
      assert u == AfterUpdate(old(Snap()), form);
      var modified := |labels| > 0;
      var ts := triggers[MODIFIED];
      var watch := watches[MODIFIED];
      var effects := log;
      for i := 0 to |ts|
        invariant Snap() == u
        invariant effects == u.log + ModifiedCalls(ts[..i], modified, labels)
      {
        ModifiedCallsStep(ts, i, modified, labels);
        effects := effects + [ModifiedCallback(ts[i].handler, ts[i].target, modified, labels)];
      }
      assert ts[..|ts|] == ts;
      assert effects == u.log + ModifiedCalls(u.triggers[MODIFIED], modified, labels);
      log := effects;
      classes := Toggle(classes, STATUS_MODIFIED, modified);
      classes := Toggle(classes, STATUS_DEFAULT, !modified);
      log := log + [ModifiedEvent(modified, labels)];
      watches := watches[MODIFIED := watch.(lastrun := now)];
      assert Snap() == ModifiedReport(u, labels, now);
      assert Snap() == AfterModifiedCheck(old(Snap()), form, now);
    }

    method Init(form: seq<Field>)
      requires Valid()
      modifies this`current, this`initial
      ensures Valid()
      ensures Snap() == AfterUpdate(old(Snap()), form)
    {
      UpdateData(form);
    }

    /**
     * `UpdateData`: refresh `current` from the form's controls, and on the
     * first call keep a copy of it as the baseline.
     */
    method UpdateData(form: seq<Field>)
      requires Valid()
      modifies this`current, this`initial
      ensures Valid()
      ensures Snap() == AfterUpdate(old(Snap()), form)
    {
      RecordControls(Inputs(form));
      if initial.None? {
        // `$.extend(true, {}, current)`: snapshots are values, so a copy is the value itself.
        initial := Some(current);
      }
      assert Snap() == AfterUpdate(old(Snap()), form);
    }

    /**
     * The loop of `UpdateData`: it visits indices `0..|inputs|` inclusive;
     * the last index wraps `undefined`, which has no name and is skipped.
     */
    method RecordControls(inputs: seq<Field>)
      requires current.Valid()
      modifies this`current
      ensures current == Refreshed(old(current), inputs, |inputs|)
    {
      ghost var start := current;
      // `var label` is function-scoped: one variable for every iteration.
      var lastLabel: Option<string> := None;
      var i := 0;
      while i <= |inputs|
        invariant 0 <= i <= |inputs| + 1
        invariant i <= |inputs| ==> current == Refreshed(start, inputs, i)
        invariant i == |inputs| + 1 ==> current == Refreshed(start, inputs, |inputs|)
        invariant i <= |inputs| ==> lastLabel == LabelBefore(inputs, i)
      {
        if i < |inputs| {
          LabelStep(inputs, i);
        }
        var element: Option<Field> := if i < |inputs| then Some(inputs[i]) else None;
        if element.None? || element.value.name.None? {
          i := i + 1;
          continue;
        }
        var f := element.value;
        if f.siblingLabel.Some? {
          lastLabel := f.siblingLabel;
        }
        current := Put(current, f.name.value, Entry(lastLabel, f.value));
        i := i + 1;
      }
    }

    /** `GetDiff(update)`; the source's default for an omitted `update` is `true`. */
    method GetDiff(update: bool, form: seq<Field>) returns (diff: Dict<DiffEntry>)
      requires Valid()
      modifies this`current, this`initial
      ensures Valid()
      ensures Snap() == if update then AfterUpdate(old(Snap()), form) else old(Snap())
      ensures diff == DiffOf(initial, current)
    {
      if update {
        UpdateData(form);
      }
      diff := Diff(initial, current);
    }

    method GetChangedLabels(update: bool, form: seq<Field>) returns (labels: seq<Option<string>>)
      requires Valid()
      modifies this`current, this`initial
      ensures Valid()
      ensures Snap() == if update then AfterUpdate(old(Snap()), form) else old(Snap())
      ensures labels == LabelsOf(DiffOf(initial, current))
    {
      var diff := GetDiff(update, form);
      labels := CollectLabels(diff);
    }
  }
}
