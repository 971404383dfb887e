/** The few JavaScript values and string operations the form watcher relies on. */
module Js {

  datatype Option<+T> = None | Some(value: T)

  /**
   * A field value as the watcher sees it: a string, or `undefined`.
   * jQuery's `null` (a select with nothing selected) is read as `undefined`:
   * the two are equal under `==`, which is the only comparison applied to it.
   */
  datatype JsValue = Undefined | Str(s: string)

  /**
   * JavaScript's loose inequality `a != b` on strings and `undefined`:
   * `undefined` equals only itself, two strings are equal when their
   * characters are. No coercion between them can make a string equal
   * `undefined`, so on this domain loose inequality is plain inequality.
   */
  function LooseNotEquals(a: JsValue, b: JsValue): (r: bool)
    ensures r <==> a != b
  {
    match a
    case Undefined => !b.Undefined?
    case Str(x) => b.Undefined? || b.s != x
  }

  function LowerChar(c: char): char
  {
    if 'A' <= c <= 'Z' then (c as int + 32) as char else c
  }

  /** `String.prototype.toLowerCase`, for ASCII letters. */
  function Lower(s: string): (r: string)
    ensures |r| == |s|
    ensures forall i :: 0 <= i < |s| ==> r[i] == LowerChar(s[i])
  {
    if s == [] then [] else [LowerChar(s[0])] + Lower(s[1..])
  }

  /**
   * A type attribute lower-cases to "submit" exactly when it is "submit"
   * written in any mix of upper- and lower-case letters.
   */
  lemma {:induction false} LowerIsSubmit(s: string)
    ensures Lower(s) == "submit" <==>
      |s| == 6 && forall i :: 0 <= i < 6 ==> s[i] == "submit"[i] || s[i] == "SUBMIT"[i]
  {
    if Lower(s) == "submit" {
      forall i | 0 <= i < 6 ensures s[i] == "submit"[i] || s[i] == "SUBMIT"[i] {
        assert Lower(s)[i] == LowerChar(s[i]);
      }
    }
    if |s| == 6 && forall i :: 0 <= i < 6 ==> s[i] == "submit"[i] || s[i] == "SUBMIT"[i] {
      forall i | 0 <= i < 6 ensures Lower(s)[i] == "submit"[i] {
        assert s[i] == "submit"[i] || s[i] == "SUBMIT"[i];
      }
    }
  }
}
