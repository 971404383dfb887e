/**
 * Field classification and serialisation: `isFieldRequired`,
 * `drupalFormSerialize` and `checkFormRequiredFields`.
 */
module Serialization {
  import opened Js
  import opened Objects
  import opened Form

  /**
   * `attr('type').toLowerCase()` throws for an INPUT without a type
   * attribute; the serialiser calls it for every named INPUT.
   */
  predicate TypePresent(f: Field)
  {
    f.tag == INPUT ==> f.typeAttr.Some?
  }

  predicate NamedTypesPresent(form: seq<Field>)
  {
    forall i :: 0 <= i < |form| && form[i].name.Some? ==> TypePresent(form[i])
  }

  predicate IsSubmit(f: Field)
    requires TypePresent(f)
  {
    f.tag == INPUT && Lower(f.typeAttr.value) == "submit"
  }

  /**
   * `isFieldRequired`: buttons and submit inputs are never required; any
   * other control is required when one of its three kinds of enclosing
   * container holds a `.form-required` marker. The control's own `required`
   * attribute plays no part.
   */
  function IsFieldRequired(f: Field): (r: bool)
    requires TypePresent(f)
    ensures f.tag == BUTTON ==> !r
    ensures IsSubmit(f) ==> !r
    ensures f.tag != BUTTON && !IsSubmit(f) ==>
      (r <==> f.itemHasRequired || f.groupHasRequired || f.dateOrRadiosHasRequired)
  {
    match f.tag
    case BUTTON => false
    case INPUT =>
      if Lower(f.typeAttr.value) == "submit" then false
      else f.itemHasRequired || f.groupHasRequired || f.dateOrRadiosHasRequired
    case _ => f.itemHasRequired || f.groupHasRequired || f.dateOrRadiosHasRequired
  }

  /**
   * The emptiness rule: a SELECT is empty unless its value is defined and is
   * neither the placeholder "empty" nor ""; any other control is empty
   * unless its value is defined and not "".
   */
  function IsEmptyValue(tag: Tag, v: JsValue): (r: bool)
    ensures v.Undefined? ==> r
    ensures v == Str("") ==> r
    ensures tag == SELECT && v == Str("empty") ==> r
    ensures v.Str? && v.s != "" && (tag != SELECT || v.s != "empty") ==> !r
  {
    match tag
    case SELECT => !(v.Str? && v.s != "empty" && v.s != "")
    case _ => !(v.Str? && v.s != "")
  }

  /** One `{name, value}` pair of `serializeArray()`. */
  datatype Pair = Pair(name: string, value: string)

  /** The per-name record `drupalFormSerialize` builds. */
  datatype Descriptor = Descriptor(
    element: Field,
    tag: Tag,
    inputType: Option<string>,
    value: JsValue,
    isEmpty: bool,
    required: bool)

  /** The descriptor the first loop creates for the first control of a name. */
  function Blank(f: Field): (r: Descriptor)
    requires TypePresent(f)
    ensures r.element == f && r.tag == f.tag && r.required == IsFieldRequired(f)
    ensures f.tag == INPUT <==> r.inputType.Some?
    ensures r.value.Undefined? && r.isEmpty
  {
    Descriptor(f, f.tag, if f.tag == INPUT then Some(Lower(f.typeAttr.value)) else None,
               Undefined, true, IsFieldRequired(f))
  }

  /**
   * The value the second loop leaves for name `k` after the first `n` pairs.
   */
  function SerializedValue(pairs: seq<Pair>, n: nat, k: string): (r: JsValue)
    requires n <= |pairs|
    ensures r.Str? ==> exists j :: 0 <= j < n && pairs[j] == Pair(k, r.s)
  {
    if n == 0 then Undefined
    else if pairs[n - 1].name == k then Str(pairs[n - 1].value)
    else SerializedValue(pairs, n - 1, k)
  }

  /**
   * Last pair wins: the serialised value of `k` is undefined exactly when no
   * pair carries `k`, and otherwise is the value of the last pair that does.
   */
  lemma {:induction false} LastPairWins(pairs: seq<Pair>, n: nat, k: string)
    requires n <= |pairs|
    ensures var r := SerializedValue(pairs, n, k);
      && (r.Undefined? <==> forall j :: 0 <= j < n ==> pairs[j].name != k)
      && (r.Str? ==> exists j :: 0 <= j < n && pairs[j] == Pair(k, r.s) &&
                                 forall j' :: j < j' < n ==> pairs[j'].name != k)
  {
    if n > 0 && pairs[n - 1].name != k {
      LastPairWins(pairs, n - 1, k);
    }
  }

  /** The third loop's work on one descriptor. */
  function Finalize(d: Descriptor): Descriptor
  {
    var v := if d.tag == INPUT && d.inputType == Some("file") then d.element.value else d.value;
    d.(value := v, isEmpty := d.isEmpty && IsEmptyValue(d.tag, v))
  }

  /** What the second loop leaves under name `k` after the first `j` pairs. */
  function Filled(form: seq<Field>, pairs: seq<Pair>, j: nat, k: string): Descriptor
    requires NamedTypesPresent(form) && k in NameSet(form, |form|) && j <= |pairs|
  {
    Blank(form[FirstNamed(form, |form|, k)]).(value := SerializedValue(pairs, j, k))
  }

  /** The descriptor `drupalFormSerialize` returns under name `k`. */
  function Describe(form: seq<Field>, pairs: seq<Pair>, k: string): (r: Descriptor)
    requires NamedTypesPresent(form) && k in NameSet(form, |form|)
    ensures r.element == form[FirstNamed(form, |form|, k)]
    ensures r.tag == r.element.tag && r.required == IsFieldRequired(r.element)
  {
    Finalize(Filled(form, pairs, |pairs|, k))
  }

  /**
   * What a descriptor holds: metadata from the first control of that name,
   * the value from the last serialised pair of that name (for a file input,
   * the control's own value), and emptiness by the emptiness rule.
   */
  lemma DescriptorOfName(form: seq<Field>, pairs: seq<Pair>, k: string)
    requires NamedTypesPresent(form) && k in NameSet(form, |form|)
    ensures var i := FirstNamed(form, |form|, k); var f := form[i]; var d := Describe(form, pairs, k);
      && (forall j :: 0 <= j < i ==> form[j].name != Some(k))
      && d.element == f && d.tag == f.tag && d.required == IsFieldRequired(f)
      && (f.tag == INPUT <==> d.inputType.Some?)
      && (f.tag == INPUT ==> d.inputType == Some(Lower(f.typeAttr.value)))
      && (d.value == if f.tag == INPUT && Lower(f.typeAttr.value) == "file"
                     then f.value else SerializedValue(pairs, |pairs|, k))
      && d.isEmpty == IsEmptyValue(f.tag, d.value)
  {
  }

  /**
   * `drupalFormSerialize`: one entry per distinct name, in the order names
   * first occur; unnamed controls are skipped. Its three loops are the three
   * methods below.
   */
  method Serialize(form: seq<Field>, pairs: seq<Pair>) returns (data: Dict<Descriptor>)
    requires NamedTypesPresent(form)
    ensures data.Valid()
    ensures data.keys == AddNames([], form, |form|)
    ensures forall k :: k in data.vals ==> k in NameSet(form, |form|) && data.vals[k] == Describe(form, pairs, k)
  {
    data := CollectControls(form);
    data := OverlayPairs(pairs, data);
    data := FinalizeAll(data);
  }

  /** First loop: a blank descriptor for the first control of each name. */
  method CollectControls(form: seq<Field>) returns (data: Dict<Descriptor>)
    requires NamedTypesPresent(form)
    ensures data.Valid()
    ensures data.keys == AddNames([], form, |form|)
    ensures forall k :: k in data.vals ==>
      k in NameSet(form, |form|) && data.vals[k] == Blank(form[FirstNamed(form, |form|, k)])
  {
    data := Empty();
    for i := 0 to |form|
      invariant data.Valid() && data.keys == AddNames([], form, i)
      invariant forall k :: k in data.vals ==>
        k in NameSet(form, i) && data.vals[k] == Blank(form[FirstNamed(form, i, k)])
    {
      var f := form[i];
      if f.name.None? {
        continue;
      }
      var name := f.name.value;
      var inputType := if f.tag == INPUT then Some(Lower(f.typeAttr.value)) else None;
      if name in data.vals {
        continue;
      }
      data := Put(data, name, Descriptor(f, f.tag, inputType, Undefined, true, IsFieldRequired(f)));
    }
  }

  /** Second loop: serialised values, only for names already present; the last pair wins. */
  method OverlayPairs(pairs: seq<Pair>, blank: Dict<Descriptor>) returns (data: Dict<Descriptor>)
    requires blank.Valid()
    requires forall k :: k in blank.vals ==> blank.vals[k].value == Undefined
    ensures data.Valid() && data.keys == blank.keys
    ensures forall k :: k in data.vals ==>
      k in blank.vals && data.vals[k] == blank.vals[k].(value := SerializedValue(pairs, |pairs|, k))
  {
    data := blank;
    for j := 0 to |pairs|
      invariant data.Valid() && data.keys == blank.keys
      invariant forall k :: k in data.vals ==>
        k in blank.vals && data.vals[k] == blank.vals[k].(value := SerializedValue(pairs, j, k))
    {
      var p := pairs[j];
      if p.name !in data.vals {
        continue;
      }
      data := Put(data, p.name, data.vals[p.name].(value := Str(p.value)));
    }
  }

  /** The third loop's body for one descriptor: file inputs take the element's value, then emptiness. */
  method FinalizeOne(start: Descriptor) returns (d: Descriptor)
    ensures d == Finalize(start)
  {
    d := start;
    if d.tag == INPUT && d.inputType == Some("file") {
      d := d.(value := d.element.value);
    }
    match d.tag {
      case SELECT =>
        if d.value.Str? && d.value.s != "empty" && d.value.s != "" {
          d := d.(isEmpty := false);
        }
      case _ =>
        if d.value.Str? && d.value.s != "" {
          d := d.(isEmpty := false);
        }
    }
  }

  /** Third loop: every descriptor finalised in place, key order unchanged. */
  method FinalizeAll(filled: Dict<Descriptor>) returns (data: Dict<Descriptor>)
    requires filled.Valid()
    ensures data.Valid() && data.keys == filled.keys
    ensures forall k :: k in data.vals ==> data.vals[k] == Finalize(filled.vals[k])
  {
    data := filled;
    var keys := filled.keys;
    for m := 0 to |keys|
      invariant data.keys == keys && data.vals.Keys == filled.vals.Keys
      invariant forall t :: 0 <= t < m ==> data.vals[keys[t]] == Finalize(filled.vals[keys[t]])
      invariant forall t :: m <= t < |keys| ==> data.vals[keys[t]] == filled.vals[keys[t]]
    {
      var key := keys[m];
      var d := FinalizeOne(data.vals[key]);
      data := data.(vals := data.vals[key := d]);
    }
  }

  /** The names `checkFormRequiredFields` reports among `keys`, in their order. */
  function PendingAmong(form: seq<Field>, pairs: seq<Pair>, keys: seq<string>): (r: seq<string>)
    requires NamedTypesPresent(form)
    requires forall k :: k in keys ==> k in NameSet(form, |form|)
    ensures forall k :: k in r <==>
      k in keys && Describe(form, pairs, k).required && Describe(form, pairs, k).isEmpty
    ensures Distinct(keys) ==> Distinct(r)
  {
    if keys == [] then []
    else
      var p := PendingAmong(form, pairs, keys[..|keys| - 1]);
      var k := keys[|keys| - 1];
      var d := Describe(form, pairs, k);
      if d.required && d.isEmpty then p + [k] else p
  }

  /** The pending names keep the order they have among the keys. */
  lemma {:induction false} PendingAmongOrder(form: seq<Field>, pairs: seq<Pair>, keys: seq<string>)
    requires NamedTypesPresent(form)
    requires forall k :: k in keys ==> k in NameSet(form, |form|)
    requires Distinct(keys)
    ensures forall i, j :: 0 <= i < j < |PendingAmong(form, pairs, keys)| ==>
      IndexOf(keys, PendingAmong(form, pairs, keys)[i]) < IndexOf(keys, PendingAmong(form, pairs, keys)[j])
  {
    if keys != [] {
      var front := keys[..|keys| - 1];
      PendingAmongOrder(form, pairs, front);
      var p := PendingAmong(form, pairs, front);
      forall x | x in front
        ensures IndexOf(keys, x) == IndexOf(front, x) < |front|
      {
      }
      assert IndexOf(keys, keys[|keys| - 1]) == |front|;
    }
  }

  function RequiredPending(form: seq<Field>, pairs: seq<Pair>): (r: seq<string>)
    requires NamedTypesPresent(form)
    ensures forall k :: k in r <==>
      k in NameSet(form, |form|) && Describe(form, pairs, k).required && Describe(form, pairs, k).isEmpty
    ensures Distinct(r)
  {
    PendingAmong(form, pairs, AddNames([], form, |form|))
  }

  /**
   * The pending names come in the order of the controls that first carry
   * them, the order in which serialization created their keys.
   */
  lemma PendingInFormOrder(form: seq<Field>, pairs: seq<Pair>)
    requires NamedTypesPresent(form)
    ensures forall k :: k in RequiredPending(form, pairs) ==> k in NameSet(form, |form|)
    ensures forall i, j :: 0 <= i < j < |RequiredPending(form, pairs)| ==>
      FirstNamed(form, |form|, RequiredPending(form, pairs)[i]) < FirstNamed(form, |form|, RequiredPending(form, pairs)[j])
  {
    var keys := AddNames([], form, |form|);
    var r := RequiredPending(form, pairs);
    AddNamesFirstOrder([], form, |form|);
    PendingAmongOrder(form, pairs, keys);
    forall i, j | 0 <= i < j < |r|
      ensures FirstNamed(form, |form|, r[i]) < FirstNamed(form, |form|, r[j])
    {
      var a, b := IndexOf(keys, r[i]), IndexOf(keys, r[j]);
      assert a < b && keys[a] == r[i] && keys[b] == r[j];
    }
  }

  /** `checkFormRequiredFields`: the names whose descriptor is required and empty. */
  method CheckFormRequiredFields(form: seq<Field>, pairs: seq<Pair>) returns (pending: seq<string>)
    requires NamedTypesPresent(form)
    ensures pending == RequiredPending(form, pairs)
  {
    var data := Serialize(form, pairs);
    pending := [];
    for i := 0 to |data.keys|
      invariant pending == PendingAmong(form, pairs, data.keys[..i])
    {
      var key := data.keys[i];
      assert data.keys[..i + 1][..i] == data.keys[..i];
      if data.vals[key].required && data.vals[key].isEmpty {
        pending := pending + [key];
      }
    }
    assert data.keys[..|data.keys|] == data.keys;
  }

  /**
   * The form is complete, no name pending, exactly when no named control
   * whose name is first met there is both required and empty.
   */
  lemma RequiredComplete(form: seq<Field>, pairs: seq<Pair>)
    requires NamedTypesPresent(form)
    ensures RequiredPending(form, pairs) == [] <==>
      forall i :: 0 <= i < |form| && form[i].name.Some? ==>
        var d := Describe(form, pairs, form[i].name.value); !(d.required && d.isEmpty)
  {
    var pending := RequiredPending(form, pairs);
    NameSetMembers(form, |form|);
    if pending != [] {
      var k := pending[0];
      var i := FirstNamed(form, |form|, k);
      assert form[i].name.value == k;
    }
  }

  /** A name whose first control is a button or a submit input is never pending. */
  lemma NeverPending(form: seq<Field>, pairs: seq<Pair>, i: nat)
    requires NamedTypesPresent(form) && i < |form| && form[i].name.Some?
    requires forall j :: 0 <= j < i ==> form[j].name != form[i].name
    requires form[i].tag == BUTTON || IsSubmit(form[i])
    ensures form[i].name.value !in RequiredPending(form, pairs)
  {
  }
}
