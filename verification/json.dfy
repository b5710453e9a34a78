/**
 * Decoded JSON values as the Python handlers see them (`None`, `bool`,
 * `int`, `float`, `str`, `list`, `dict`), with the two pieces of Python
 * semantics the request validation relies on: truthiness and `in`.
 */
module Json {
  import opened Wrappers

  datatype Value =
    | Null
    | Bool(b: bool)
    | Int(i: int)
    | Float(f: real)
    | Str(s: string)
    | Array(items: seq<Value>)
    | Object(fields: map<string, Value>)

  /** `not v`: Python's falsy values are None, False, zero and empty containers. */
  predicate Falsy(v: Value) {
    match v
    case Null => true
    case Bool(b) => !b
    case Int(i) => i == 0
    case Float(f) => f == 0.0
    case Str(s) => |s| == 0
    case Array(items) => |items| == 0
    case Object(fields) => |fields| == 0
  }

  /** `key` occurs as a contiguous piece of `s` (the empty string occurs everywhere). */
  predicate IsSubstring(key: string, s: string)
    decreases |s|
  {
    key <= s || (|s| > 0 && IsSubstring(key, s[1..]))
  }

  /** `key` occurs in `s` starting at index `i`. */
  predicate OccursAt(key: string, s: string, i: int) {
    0 <= i <= |s| - |key| && s[i..i + |key|] == key
  }

  /** The recursive substring test agrees with "occurs at some index". */
  lemma {:induction false} SubstringAt(key: string, s: string)
    ensures IsSubstring(key, s) <==> exists i :: OccursAt(key, s, i)
    decreases |s|
  {
    if key <= s {
      assert OccursAt(key, s, 0);
    } else if |s| == 0 {
      assert forall i :: !OccursAt(key, s, i);
    } else {
      SubstringAt(key, s[1..]);
      assert !OccursAt(key, s, 0);
      forall j | OccursAt(key, s[1..], j) ensures OccursAt(key, s, j + 1) {
        assert s[1..][j..j + |key|] == s[j + 1..j + 1 + |key|];
      }
      forall i | OccursAt(key, s, i) ensures OccursAt(key, s[1..], i - 1) {
        assert s[1..][i - 1..i - 1 + |key|] == s[i..i + |key|];
      }
    }
  }

  /**
   * `key in v` for a string `key`: a dict tests its keys, a list its
   * elements, a string its substrings; for None, booleans and numbers Python
   * raises `TypeError`, given here as `None`.
   */
  function Contains(v: Value, key: string): (r: Option<bool>)
    ensures r.None? <==> v.Null? || v.Bool? || v.Int? || v.Float?
    ensures v.Object? ==> r == Some(key in v.fields)
    ensures v.Array? ==> r == Some(exists i :: 0 <= i < |v.items| && v.items[i] == Str(key))
    ensures v.Str? ==> r == Some(exists i :: OccursAt(key, v.s, i))
  {
    match v
    case Object(fields) => Some(key in fields)
    case Array(items) => Some(Str(key) in items)
    case Str(s) =>
      SubstringAt(key, s);
      Some(IsSubstring(key, s))
    case _ => None
  }

  /** A JSON array of integers. */
  function IntArray(xs: seq<int>): (v: Value)
    ensures v.Array? && |v.items| == |xs|
    ensures forall i :: 0 <= i < |xs| ==> v.items[i] == Int(xs[i])
  {
    Array(seq(|xs|, i requires 0 <= i < |xs| => Int(xs[i])))
  }

  /** The integers of a JSON array all of whose elements are integers. */
  function IntsOf(v: Value): (r: Option<seq<int>>)
    ensures r.Some? <==> v.Array? && forall i :: 0 <= i < |v.items| ==> v.items[i].Int?
    ensures r.Some? ==> v == IntArray(r.value)
  {
    if v.Array? && forall i :: 0 <= i < |v.items| ==> v.items[i].Int? then
      var xs := seq(|v.items|, i requires 0 <= i < |v.items| => v.items[i].i);
      assert IntArray(xs).items == v.items;
      Some(xs)
    else None
  }

  /** A JSON array of strings. */
  function StrArray(xs: seq<string>): (v: Value)
    ensures v.Array? && |v.items| == |xs|
    ensures forall i :: 0 <= i < |xs| ==> v.items[i] == Str(xs[i])
  {
    Array(seq(|xs|, i requires 0 <= i < |xs| => Str(xs[i])))
  }

  /** The strings of a JSON array all of whose elements are strings. */
  function StrsOf(v: Value): (r: Option<seq<string>>)
    ensures r.Some? <==> v.Array? && forall i :: 0 <= i < |v.items| ==> v.items[i].Str?
    ensures r.Some? ==> v == StrArray(r.value)
  {
    if v.Array? && forall i :: 0 <= i < |v.items| ==> v.items[i].Str? then
      var xs := seq(|v.items|, i requires 0 <= i < |v.items| => v.items[i].s);
      assert StrArray(xs).items == v.items;
      Some(xs)
    else None
  }

  /** Decoding an encoded integer array gives the integers back. */
  lemma IntArrayRoundTrip(xs: seq<int>)
    ensures IntsOf(IntArray(xs)) == Some(xs)
  {
    var v := IntArray(xs);
    assert forall i :: 0 <= i < |v.items| ==> v.items[i].Int?;
    var ys := IntsOf(v).value;
    assert IntArray(ys) == IntArray(xs);
    assert |ys| == |IntArray(ys).items| == |xs|;
    forall i | 0 <= i < |xs| ensures ys[i] == xs[i] {
      assert Int(ys[i]) == IntArray(ys).items[i] == IntArray(xs).items[i] == Int(xs[i]);
    }
    assert ys == xs;
  }

  /** Decoding an encoded string array gives the strings back. */
  lemma StrArrayRoundTrip(xs: seq<string>)
    ensures StrsOf(StrArray(xs)) == Some(xs)
  {
    var v := StrArray(xs);
    assert forall i :: 0 <= i < |v.items| ==> v.items[i].Str?;
    var ys := StrsOf(v).value;
    assert StrArray(ys) == StrArray(xs);
    assert |ys| == |StrArray(ys).items| == |xs|;
    forall i | 0 <= i < |xs| ensures ys[i] == xs[i] {
      assert Str(ys[i]) == StrArray(ys).items[i] == StrArray(xs).items[i] == Str(xs[i]);
    }
    assert ys == xs;
  }
}
