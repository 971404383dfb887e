/**
 * The form as the watcher reads it: its input, textarea, select and button
 * elements in document order, each reduced to the attributes and the
 * surrounding markup the watcher inspects.
 */
module Form {
  import opened Js
  import opened Objects

  /** The `tagName` of a form control. */
  datatype Tag = INPUT | TEXTAREA | SELECT | BUTTON

  /**
   * One form control.
   * - `name`, `typeAttr`: its `name` and `type` attributes, when present.
   * - `value`: what `.val()` returns for it.
   * - `itemHasRequired`, `groupHasRequired`, `dateOrRadiosHasRequired`: whether
   *   its closest `.form-item`, its closest `.form-group`, and its closest
   *   `.form-type-date, .form-type-radios` ancestor hold a `.form-required`
   *   descendant.
   * - `siblingLabel`: the trimmed text of its first sibling `<label>`, if any.
   */
  datatype Field = Field(
    name: Option<string>,
    tag: Tag,
    typeAttr: Option<string>,
    value: JsValue,
    itemHasRequired: bool,
    groupHasRequired: bool,
    dateOrRadiosHasRequired: bool,
    siblingLabel: Option<string>)

  /** The names carried by the first `n` fields. */
  function NameSet(fields: seq<Field>, n: nat): (names: set<string>)
    requires n <= |fields|
    ensures forall j :: 0 <= j < n && fields[j].name.Some? ==> fields[j].name.value in names
  {
    if n == 0 then {}
    else NameSet(fields, n - 1) + (if fields[n - 1].name.Some? then {fields[n - 1].name.value} else {})
  }

  /** A name is in the set exactly when one of the first `n` fields carries it. */
  lemma {:induction false} NameSetMembers(fields: seq<Field>, n: nat)
    requires n <= |fields|
    ensures forall k :: k in NameSet(fields, n) <==> exists j :: 0 <= j < n && fields[j].name == Some(k)
  {
    if n > 0 {
      NameSetMembers(fields, n - 1);
    }
  }

  /**
   * The key order of an object that starts with the keys `start` and is then
   * assigned, field by field, under the name of each of the first `n` fields:
   * names already present keep their place, new ones are appended once, in
   * the order they first occur.
   */
  function AddNames(start: seq<string>, fields: seq<Field>, n: nat): (r: seq<string>)
    requires n <= |fields|
    ensures forall k :: k in r <==> k in start || k in NameSet(fields, n)
    ensures Distinct(start) ==> Distinct(r)
    ensures |start| <= |r| && r[..|start|] == start
  {
    if n == 0 then start
    else
      var p := AddNames(start, fields, n - 1);
      var name := fields[n - 1].name;
      if name.Some? && name.value !in p then p + [name.value] else p
  }

  /**
   * The keys `AddNames` appends are names of the fields, in the order of
   * the fields that first carry them.
   */
  lemma {:induction false} AddNamesFirstOrder(start: seq<string>, fields: seq<Field>, n: nat)
    requires n <= |fields|
    ensures forall i :: |start| <= i < |AddNames(start, fields, n)| ==>
      AddNames(start, fields, n)[i] in NameSet(fields, n)
    ensures forall i, j :: |start| <= i < j < |AddNames(start, fields, n)| ==>
      FirstNamed(fields, n, AddNames(start, fields, n)[i]) < FirstNamed(fields, n, AddNames(start, fields, n)[j])
  {
    if n > 0 {
      AddNamesFirstOrder(start, fields, n - 1);
      var p := AddNames(start, fields, n - 1);
      var r := AddNames(start, fields, n);
      forall i | |start| <= i < |p|
        ensures FirstNamed(fields, n, p[i]) == FirstNamed(fields, n - 1, p[i]) < n - 1
      {
      }
      if r != p {
        var k := r[|p|];
        assert k !in NameSet(fields, n - 1);
        assert FirstNamed(fields, n, k) == n - 1;
      }
    }
  }

  /** When every name of the first `n` fields is already a key, no key is added. */
  lemma {:induction false} AddNamesNoNew(start: seq<string>, fields: seq<Field>, n: nat)
    requires n <= |fields|
    requires forall k :: k in NameSet(fields, n) ==> k in start
    ensures AddNames(start, fields, n) == start
  {
    if n > 0 {
      assert forall k :: k in NameSet(fields, n - 1) ==> k in NameSet(fields, n);
      AddNamesNoNew(start, fields, n - 1);
    }
  }

  /** The first of the first `n` fields named `k`: the one whose metadata wins. */
  function FirstNamed(fields: seq<Field>, n: nat, k: string): (r: nat)
    requires n <= |fields| && k in NameSet(fields, n)
    ensures r < n && fields[r].name == Some(k)
    ensures forall j :: 0 <= j < r ==> fields[j].name != Some(k)
  {
    if k in NameSet(fields, n - 1) then FirstNamed(fields, n - 1, k)
    else NameSetMembers(fields, n - 1); n - 1
  }

  /** The last of the first `n` fields named `k`: the one whose assignment wins. */
  function LastNamed(fields: seq<Field>, n: nat, k: string): (r: nat)
    requires n <= |fields| && k in NameSet(fields, n)
    ensures r < n && fields[r].name == Some(k)
    ensures forall j :: r < j < n ==> fields[j].name != Some(k)
  {
    if fields[n - 1].name == Some(k) then n - 1 else LastNamed(fields, n - 1, k)
  }
}
