/** The optional value of a lookup: `undefined` is `None`. */
module Wrappers {
  datatype Option<+T> = None | Some(value: T)
}

/** The user's answer as the scripts receive it from session storage: a JSON
    value that is `null`, a string, an array of strings or an object whose
    properties are strings. Property access and `Object.keys` behave on it as
    in JavaScript. */
module JsValue {
  import opened Wrappers
  import opened JsText

  datatype Answer = Null | Str(s: string) | List(items: seq<string>) | Dict(entries: map<string, string>)

  /** JavaScript truthiness: `null` and `""` are falsy, every array and object is truthy. */
  predicate Truthy(v: Answer) {
    match v
    case Null => false
    case Str(s) => s != []
    case List(_) => true
    case Dict(_) => true
  }

  /** The array index a property key denotes: a canonical decimal numeral
      (no leading zero except `"0"` itself). */
  function ArrayIndex(key: string): (r: Option<nat>)
    ensures r.Some? ==> key != [] && AllDigits(key) && (key[0] == '0' ==> key == "0")
  {
    if key != [] && AllDigits(key) && (key[0] != '0' || key == "0") then Some(DigitsValue(key)) else None
  }

  /** `v[key]` on a non-null value; `None` is `undefined`. A string yields
      the one-character string at that index. Inherited properties such as
      `length` are not part of this model. */
  function Prop(v: Answer, key: string): (r: Option<string>)
    ensures v.Dict? ==> (r.Some? <==> key in v.entries)
    ensures v.Dict? && key in v.entries ==> r == Some(v.entries[key])
    ensures v.Null? ==> r.None?
  {
    match v
    case Null => None
    case Str(s) =>
      var i := ArrayIndex(key);
      if i.Some? && i.value < |s| then Some([s[i.value]]) else None
    case List(xs) =>
      var i := ArrayIndex(key);
      if i.Some? && i.value < |xs| then Some(xs[i.value]) else None
    case Dict(m) => if key in m then Some(m[key]) else None
  }

  /** `Object.keys(v).length`: the indices of a string or an array, the
      properties of an object. `Object.keys(null)` throws, so `null` is excluded. */
  function KeyCount(v: Answer): (n: nat)
    requires !v.Null?
    ensures v.Dict? ==> n == |v.entries.Keys|
  {
    match v
    case Str(s) => |s|
    case List(xs) => |xs|
    case Dict(m) => |m|
  }

  /** The "functionally empty" answers both evaluators test for: `null`,
      `[]`, `{}` and `[""]`. (`[undefined]` cannot arrive as JSON; a
      string, even `""`, is never empty here.) */
  predicate IsFunctionallyEmpty(v: Answer) {
    match v
    case Null => true
    case Str(_) => false
    case List(xs) => xs == [] || xs == [""]
    case Dict(m) => m == map[]
  }

  /** `v[0]`, the first element as the choice and exact-answer evaluators read it. */
  function First(v: Answer): (r: Option<string>)
    ensures v.List? ==> r == (if v.items != [] then Some(v.items[0]) else None)
    ensures v.Str? ==> r == (if v.s != [] then Some([v.s[0]]) else None)
  {
    Prop(v, "0")
  }
}

/** The object a loop builds with `obj[key] = value`, one element at a time. */
module MapFill {
  import opened Wrappers

  /** One assignment: an element that yields no entry leaves the object as it is. */
  function Put(m: map<string, string>, e: Option<(string, string)>): (r: map<string, string>)
  {
    match e
    case Some(p) => m[p.0 := p.1]
    case None => m
  }

  /** The object after the loop has visited every element of `xs`, in order. */
  function Fill<T>(xs: seq<T>, entry: T -> Option<(string, string)>): map<string, string>
  {
    if xs == [] then map[] else Put(Fill(xs[..|xs| - 1], entry), entry(xs[|xs| - 1]))
  }

  /** One turn of the loop. */
  lemma FillStep<T>(xs: seq<T>, entry: T -> Option<(string, string)>, i: nat)
    requires i < |xs|
    ensures Fill(xs[..i + 1], entry) == Put(Fill(xs[..i], entry), entry(xs[i]))
  {
    assert xs[..i + 1][..i] == xs[..i];
  }

  /** Element `i` yields the entry `key: value`. */
  predicate EntryAt<T>(xs: seq<T>, entry: T -> Option<(string, string)>, i: int, key: string, value: string) {
    0 <= i < |xs| && entry(xs[i]) == Some((key, value))
  }

  /** No element after `i` yields an entry for `key`. */
  predicate NoLaterEntry<T>(xs: seq<T>, entry: T -> Option<(string, string)>, i: int, key: string) {
    forall j :: i < j < |xs| && 0 <= j ==> !(entry(xs[j]).Some? && entry(xs[j]).value.0 == key)
  }

  /** A key is in the object exactly when some element yields an entry for it. */
  lemma {:induction false} FillKeys<T>(xs: seq<T>, entry: T -> Option<(string, string)>, key: string)
    ensures key in Fill(xs, entry) <==> exists i, v :: EntryAt(xs, entry, i, key, v)
  {
    if xs != [] {
      var n := |xs| - 1;
      var init := xs[..n];
      assert Fill(xs, entry) == Put(Fill(init, entry), entry(xs[n]));
      FillKeys(init, entry, key);
      if key in Fill(init, entry) {
        var i, v :| EntryAt(init, entry, i, key, v);
        assert xs[i] == init[i];
        assert EntryAt(xs, entry, i, key, v);
      } else if key in Fill(xs, entry) {
        assert EntryAt(xs, entry, n, key, entry(xs[n]).value.1);
      }
      if exists i, v :: EntryAt(xs, entry, i, key, v) {
        var i, v :| EntryAt(xs, entry, i, key, v);
        if i < n {
          assert xs[i] == init[i];
          assert EntryAt(init, entry, i, key, v);
        }
      }
    }
  }

  /** A key holds the value of the last element that yields an entry for it:
      later entries overwrite earlier ones. */
  lemma {:induction false} FillLastWins<T>(xs: seq<T>, entry: T -> Option<(string, string)>, key: string)
    requires key in Fill(xs, entry)
    ensures exists i :: EntryAt(xs, entry, i, key, Fill(xs, entry)[key]) && NoLaterEntry(xs, entry, i, key)
  {
    var n := |xs| - 1;
    var init := xs[..n];
    assert Fill(xs, entry) == Put(Fill(init, entry), entry(xs[n]));
    var last := entry(xs[n]);
    if last.Some? && last.value.0 == key {
      assert EntryAt(xs, entry, n, key, Fill(xs, entry)[key]) && NoLaterEntry(xs, entry, n, key);
    } else {
      FillLastWins(init, entry, key);
      var i :| EntryAt(init, entry, i, key, Fill(init, entry)[key]) && NoLaterEntry(init, entry, i, key);
      assert xs[i] == init[i];
      assert EntryAt(xs, entry, i, key, Fill(xs, entry)[key]);
      forall j | i < j < |xs| && 0 <= j
        ensures !(entry(xs[j]).Some? && entry(xs[j]).value.0 == key)
      {
        if j < n {
          assert xs[j] == init[j];
        }
      }
    }
  }
}
