/**
 * The watcher's snapshots and their difference: `UpdateData`, `GetDiff` and
 * `GetChangedLabels` without the object that holds the snapshots.
 */
module Snapshot {
  import opened Js
  import opened Objects
  import opened Form

  /** What `UpdateData` records for one name. */
  datatype Entry = Entry(labelText: Option<string>, value: JsValue)

  /** `find('input, textarea, select')`: every control except buttons, in document order. */
  function Inputs(form: seq<Field>): (r: seq<Field>)
    ensures |r| <= |form|
    ensures forall f :: f in r <==> f in form && f.tag != BUTTON
  {
    if form == [] then []
    else (if form[0].tag != BUTTON then [form[0]] else []) + Inputs(form[1..])
  }

  /** The positions in the form of the elements of `Inputs(form)`. */
  function InputIndices(form: seq<Field>): seq<nat>
  {
    if form == [] then []
    else
      var rest := InputIndices(form[1..]);
      var shifted := seq(|rest|, t requires 0 <= t < |rest| => rest[t] + 1);
      if form[0].tag != BUTTON then [0] + shifted else shifted
  }

  /** Each element of `Inputs(form)` is the control at its position. */
  lemma {:induction false} InputsAtIndices(form: seq<Field>)
    ensures |InputIndices(form)| == |Inputs(form)|
    ensures forall t :: 0 <= t < |InputIndices(form)| ==>
      InputIndices(form)[t] < |form| && Inputs(form)[t] == form[InputIndices(form)[t]]
  {
    if form != [] {
      var tail := form[1..];
      InputsAtIndices(tail);
      var rest := InputIndices(tail);
      var r := Inputs(tail);
      var head := if form[0].tag != BUTTON then [form[0]] else [];
      var h := |head|;
      var idx := InputIndices(form);
      assert Inputs(form) == head + r;
      assert |idx| == |rest| + h;
      forall t | h <= t < |idx|
        ensures idx[t] == rest[t - h] + 1 && Inputs(form)[t] == form[idx[t]]
      {
        assert Inputs(form)[t] == r[t - h] == tail[rest[t - h]];
      }
    }
  }

  /** The positions strictly increase and stay within the form. */
  lemma {:induction false} InputIndicesIncrease(form: seq<Field>)
    ensures forall t :: 0 <= t < |InputIndices(form)| ==> InputIndices(form)[t] < |form|
    ensures forall s, t :: 0 <= s < t < |InputIndices(form)| ==> InputIndices(form)[s] < InputIndices(form)[t]
  {
    if form != [] {
      InputIndicesIncrease(form[1..]);
    }
  }

  /** Every control but the buttons has a position in the list. */
  lemma {:induction false} InputIndicesCover(form: seq<Field>)
    ensures forall j :: 0 <= j < |form| && form[j].tag != BUTTON ==> j in InputIndices(form)
  {
    if form != [] {
      var tail := form[1..];
      InputIndicesCover(tail);
      var rest := InputIndices(tail);
      var idx := InputIndices(form);
      var h := if form[0].tag != BUTTON then 1 else 0;
      forall j | 1 <= j < |form| && form[j].tag != BUTTON
        ensures j in idx
      {
        assert tail[j - 1] == form[j];
        var t :| 0 <= t < |rest| && rest[t] == j - 1;
        assert idx[t + h] == j;
      }
    }
  }

  /**
   * `find('input, textarea, select')` keeps document order and visits each
   * control once: the elements of `Inputs(form)` sit at strictly increasing
   * positions of the form, and every control but the buttons is among them.
   */
  lemma InputsKeepOrder(form: seq<Field>)
    ensures |InputIndices(form)| == |Inputs(form)|
    ensures forall t :: 0 <= t < |InputIndices(form)| ==>
      InputIndices(form)[t] < |form| && Inputs(form)[t] == form[InputIndices(form)[t]]
    ensures forall s, t :: 0 <= s < t < |InputIndices(form)| ==> InputIndices(form)[s] < InputIndices(form)[t]
    ensures forall j :: 0 <= j < |form| && form[j].tag != BUTTON ==> j in InputIndices(form)
  {
    InputsAtIndices(form);
    InputIndicesIncrease(form);
    InputIndicesCover(form);
  }

  /** A control that `UpdateData` does not skip and that has a sibling label. */
  predicate Labelled(f: Field)
  {
    f.name.Some? && f.siblingLabel.Some?
  }

  /**
   * The value of `UpdateData`'s `label` variable after the loop has visited
   * the first `n` controls. The variable is declared once for the whole call
   * and only assigned when a named control has a sibling label, so it keeps
   * the last such label.
   */
  function LabelBefore(inputs: seq<Field>, n: nat): (r: Option<string>)
    requires n <= |inputs|
    ensures r.Some? ==> exists j :: 0 <= j < n && Labelled(inputs[j]) && inputs[j].siblingLabel == r
  {
    if n == 0 then None
    else if Labelled(inputs[n - 1]) then inputs[n - 1].siblingLabel
    else LabelBefore(inputs, n - 1)
  }

  /**
   * The label carries over: after `n` controls, `label` is undefined when no
   * named control so far had a sibling label, and otherwise is the sibling
   * label of the last one that had.
   */
  lemma {:induction false} LabelCarriesOver(inputs: seq<Field>, n: nat)
    requires n <= |inputs|
    ensures var carried := LabelBefore(inputs, n);
      && (carried.None? <==> forall j :: 0 <= j < n ==> !Labelled(inputs[j]))
      && (carried.Some? ==> exists j :: 0 <= j < n && Labelled(inputs[j]) && inputs[j].siblingLabel == carried &&
                                      forall j' :: j < j' < n ==> !Labelled(inputs[j']))
  {
    if n > 0 && !Labelled(inputs[n - 1]) {
      LabelCarriesOver(inputs, n - 1);
    }
  }

  /** The entry recorded when the loop visits named control `j`. */
  function CapturedAt(inputs: seq<Field>, j: nat): (r: Entry)
    requires j < |inputs|
    ensures r.value == inputs[j].value
    ensures Labelled(inputs[j]) ==> r.labelText == inputs[j].siblingLabel
  {
    Entry(LabelBefore(inputs, j + 1), inputs[j].value)
  }

  /** One visit of the loop: the variable changes only at a labelled control. */
  lemma LabelStep(inputs: seq<Field>, i: nat)
    requires i < |inputs|
    ensures LabelBefore(inputs, i + 1) ==
      if Labelled(inputs[i]) then inputs[i].siblingLabel else LabelBefore(inputs, i)
  {
  }

  /**
   * `data.current` after `UpdateData` has visited the first `n` controls,
   * starting from `cur`: one assignment per named control, in order.
   */
  function Refreshed(cur: Dict<Entry>, inputs: seq<Field>, n: nat): (r: Dict<Entry>)
    requires cur.Valid() && n <= |inputs|
    ensures r.Valid()
    ensures cur.vals.Keys <= r.vals.Keys
  {
    if n == 0 then cur
    else
      var before := Refreshed(cur, inputs, n - 1);
      match inputs[n - 1].name
      case None => before
      case Some(name) => Put(before, name, CapturedAt(inputs, n - 1))
  }

  /** The keys after the refresh: the old ones and every name seen. */
  lemma {:induction false} RefreshedMembers(cur: Dict<Entry>, inputs: seq<Field>, n: nat)
    requires cur.Valid() && n <= |inputs|
    ensures forall k :: k in Refreshed(cur, inputs, n).vals <==> k in cur.vals || k in NameSet(inputs, n)
  {
    if n > 0 {
      RefreshedMembers(cur, inputs, n - 1);
    }
  }

  /**
   * The key order after the refresh: the old keys in their places, then the
   * new names in the order they first occur.
   */
  lemma {:induction false} RefreshedOrder(cur: Dict<Entry>, inputs: seq<Field>, n: nat)
    requires cur.Valid() && n <= |inputs|
    ensures Refreshed(cur, inputs, n).keys == AddNames(cur.keys, inputs, n)
  {
    if n > 0 {
      RefreshedOrder(cur, inputs, n - 1);
    }
  }

  /**
   * The entries after the refresh: each name seen holds the entry of the
   * LAST control carrying it; every other key keeps its entry.
   */
  lemma {:induction false} RefreshedLastWins(cur: Dict<Entry>, inputs: seq<Field>, n: nat)
    requires cur.Valid() && n <= |inputs|
    ensures var r := Refreshed(cur, inputs, n);
      && (forall k :: k in NameSet(inputs, n) ==>
            k in r.vals && r.vals[k] == CapturedAt(inputs, LastNamed(inputs, n, k)))
      && (forall k :: k in cur.vals && k !in NameSet(inputs, n) ==> r.vals[k] == cur.vals[k])
  {
    if n > 0 {
      RefreshedLastWins(cur, inputs, n - 1);
      var r := Refreshed(cur, inputs, n);
      forall k | k in NameSet(inputs, n)
        ensures k in r.vals && r.vals[k] == CapturedAt(inputs, LastNamed(inputs, n, k))
      {
        if inputs[n - 1].name != Some(k) {
          assert k in NameSet(inputs, n - 1);
        }
      }
    }
  }

  /**
   * The carried-over label in its smallest instance: a named control without
   * a sibling label, visited right after one with label `l`, is recorded
   * with `l`.
   */
  lemma InheritedLabel(cur: Dict<Entry>, a: Field, b: Field, l: string)
    requires cur.Valid()
    requires a.name.Some? && a.siblingLabel == Some(l)
    requires b.name.Some? && b.name != a.name && b.siblingLabel.None?
    ensures var r := Refreshed(cur, [a, b], 2);
      b.name.value in r.vals && r.vals[b.name.value] == Entry(Some(l), b.value)
  {
  }

  /** Refreshing twice from the same form records nothing new. */
  lemma RefreshIdempotent(cur: Dict<Entry>, inputs: seq<Field>)
    requires cur.Valid()
    ensures var once := Refreshed(cur, inputs, |inputs|);
      Refreshed(once, inputs, |inputs|) == once
  {
    var once := Refreshed(cur, inputs, |inputs|);
    var twice := Refreshed(once, inputs, |inputs|);
    var names := NameSet(inputs, |inputs|);
    RefreshedMembers(cur, inputs, |inputs|);
    RefreshedMembers(once, inputs, |inputs|);
    RefreshedOrder(once, inputs, |inputs|);
    AddNamesNoNew(once.keys, inputs, |inputs|);
    RefreshedLastWins(cur, inputs, |inputs|);
    RefreshedLastWins(once, inputs, |inputs|);
    forall k | k in once.vals
      ensures twice.vals[k] == once.vals[k]
    {
      if k in names {
        assert twice.vals[k] == CapturedAt(inputs, LastNamed(inputs, |inputs|, k));
      }
    }
    assert twice.vals == once.vals;
  }

  /** One entry of `GetDiff`'s result. */
  datatype DiffEntry = DiffEntry(initial: JsValue, current: JsValue, labelText: Option<string>)

  /** Every key of the baseline is a key of the current snapshot. */
  predicate Covers(init: Dict<Entry>, cur: Dict<Entry>)
  {
    init.Valid() && cur.Valid() && init.vals.Keys <= cur.vals.Keys
  }

  /** The keys among the first `n` baseline keys whose value has changed. */
  function ChangedKeys(init: Dict<Entry>, cur: Dict<Entry>, n: nat): (r: seq<string>)
    requires Covers(init, cur) && n <= |init.keys|
    ensures forall k :: k in r <==>
      k in init.keys[..n] && LooseNotEquals(init.vals[k].value, cur.vals[k].value)
    ensures Distinct(r)
  {
    if n == 0 then []
    else
      var p := ChangedKeys(init, cur, n - 1);
      var k := init.keys[n - 1];
      assert init.keys[..n] == init.keys[..n - 1] + [k];
      if LooseNotEquals(init.vals[k].value, cur.vals[k].value) then p + [k] else p
  }

  /** The changed keys keep the order the `for..in` loop visits them in. */
  lemma {:induction false} ChangedKeysOrder(init: Dict<Entry>, cur: Dict<Entry>, n: nat)
    requires Covers(init, cur) && n <= |init.keys|
    ensures forall k :: k in ChangedKeys(init, cur, n) ==> k in init.keys && IndexOf(init.keys, k) < n
    ensures forall i, j :: 0 <= i < j < |ChangedKeys(init, cur, n)| ==>
      IndexOf(init.keys, ChangedKeys(init, cur, n)[i]) < IndexOf(init.keys, ChangedKeys(init, cur, n)[j])
  {
    if n > 0 {
      ChangedKeysOrder(init, cur, n - 1);
      var k := init.keys[n - 1];
      assert IndexOf(init.keys, k) == n - 1;
    }
  }

  function EntryFor(init: Dict<Entry>, cur: Dict<Entry>, k: string): DiffEntry
    requires Covers(init, cur) && k in init.vals
  {
    DiffEntry(init.vals[k].value, cur.vals[k].value, init.vals[k].labelText)
  }

  /** The diff object after the `for..in` loop has visited the first `n` baseline keys. */
  function DiffUpTo(init: Dict<Entry>, cur: Dict<Entry>, n: nat): Dict<DiffEntry>
    requires Covers(init, cur) && n <= |init.keys|
  {
    var ks := ChangedKeys(init, cur, n);
    Dict(ks, map k | k in ks :: EntryFor(init, cur, k))
  }

  /**
   * `GetDiff`'s result: an entry for exactly the baseline keys whose value
   * differs (loose `!=`) from the current one, carrying both values and the
   * baseline label; nothing at all before a baseline exists.
   */
  function DiffOf(initial: Option<Dict<Entry>>, cur: Dict<Entry>): (r: Dict<DiffEntry>)
    requires initial.Some? ==> Covers(initial.value, cur)
    ensures r.Valid()
    ensures initial.None? ==> r.keys == []
    ensures initial.Some? ==> forall k :: k in r.vals <==>
      k in initial.value.vals && LooseNotEquals(initial.value.vals[k].value, cur.vals[k].value)
    ensures initial.Some? ==> forall k :: k in r.vals ==>
      r.vals[k] == DiffEntry(initial.value.vals[k].value, cur.vals[k].value, initial.value.vals[k].labelText)
  {
    match initial
    case None => Empty()
    case Some(init) =>
      assert init.keys[..|init.keys|] == init.keys;
      DiffUpTo(init, cur, |init.keys|)
  }

  /**
   * The diff lists its keys in baseline order, so the labels reported for
   * the changed fields come in that order too.
   */
  lemma DiffInBaselineOrder(init: Dict<Entry>, cur: Dict<Entry>)
    requires Covers(init, cur)
    ensures forall k :: k in DiffOf(Some(init), cur).keys ==> k in init.keys
    ensures forall i, j :: 0 <= i < j < |DiffOf(Some(init), cur).keys| ==>
      IndexOf(init.keys, DiffOf(Some(init), cur).keys[i]) < IndexOf(init.keys, DiffOf(Some(init), cur).keys[j])
  {
    assert DiffOf(Some(init), cur).keys == ChangedKeys(init, cur, |init.keys|);
    ChangedKeysOrder(init, cur, |init.keys|);
  }

  /** With no value changed since the baseline, the diff is empty. */
  lemma UnchangedMeansEmptyDiff(init: Dict<Entry>, cur: Dict<Entry>)
    requires Covers(init, cur)
    requires forall k :: k in init.vals ==> init.vals[k].value == cur.vals[k].value
    ensures DiffOf(Some(init), cur).keys == []
  {
    NothingChanged(init, cur, |init.keys|);
  }

  lemma {:induction false} NothingChanged(init: Dict<Entry>, cur: Dict<Entry>, n: nat)
    requires Covers(init, cur) && n <= |init.keys|
    requires forall k :: k in init.vals ==> init.vals[k].value == cur.vals[k].value
    ensures ChangedKeys(init, cur, n) == []
  {
    if n > 0 {
      NothingChanged(init, cur, n - 1);
    }
  }

  /** `GetDiff`'s `for..in` loop over the baseline; none when there is no baseline. */
  method Diff(initial: Option<Dict<Entry>>, current: Dict<Entry>) returns (diff: Dict<DiffEntry>)
    requires initial.Some? ==> Covers(initial.value, current)
    ensures diff == DiffOf(initial, current)
  {
    diff := Empty();
    if initial.None? {
      return;
    }
    var init := initial.value;
    for n := 0 to |init.keys|
      invariant diff == DiffUpTo(init, current, n)
    {
      var key := init.keys[n];
      if LooseNotEquals(init.vals[key].value, current.vals[key].value) {
        assert key !in ChangedKeys(init, current, n) by {
          assert key !in init.keys[..n];
        }
        diff := Put(diff, key, DiffEntry(init.vals[key].value, current.vals[key].value, init.vals[key].labelText));
      }
    }
  }

  /** The labels of a diff's entries, in its key order. */
  function LabelsOf(diff: Dict<DiffEntry>): (r: seq<Option<string>>)
    requires diff.Valid()
    ensures |r| == |diff.keys|
    ensures forall i :: 0 <= i < |r| ==> r[i] == diff.vals[diff.keys[i]].labelText
  {
    seq(|diff.keys|, i requires 0 <= i < |diff.keys| => diff.vals[diff.keys[i]].labelText)
  }

  /** `GetChangedLabels`' loop: one label per diff entry, in the diff's order. */
  method CollectLabels(diff: Dict<DiffEntry>) returns (labels: seq<Option<string>>)
    requires diff.Valid()
    ensures |labels| == |diff.keys|
    ensures forall i :: 0 <= i < |diff.keys| ==> labels[i] == diff.vals[diff.keys[i]].labelText
  {
    labels := [];
    for i := 0 to |diff.keys|
      invariant |labels| == i
      invariant forall t :: 0 <= t < i ==> labels[t] == diff.vals[diff.keys[t]].labelText
    {
      labels := labels + [diff.vals[diff.keys[i]].labelText];
    }
  }
}
