/**
 * JSON values as the request handlers see them: a request body after
 * parsing, and the bodies the handlers hand back to the framework.
 * Objects keep their members in order; looking a key up follows the
 * dictionary that Python's JSON parser builds, where a later duplicate
 * key overrides an earlier one.
 */
module Json {

  datatype Option<+T> = None | Some(value: T)

  /** A JSON value. Numbers are integers: fractional numbers are not modelled. */
  datatype Value =
    | Null
    | Bool(b: bool)
    | Int(n: int)
    | Str(s: string)
    | Array(items: seq<Value>)
    | Object(members: seq<Member>)

  datatype Member = Member(key: string, value: Value)

  /** The keys of an object, in member order. */
  function Keys(ms: seq<Member>): seq<string>
  {
    seq(|ms|, i requires 0 <= i < |ms| => ms[i].key)
  }

  /** The value bound to `key` in the dictionary the members denote. */
  function Lookup(ms: seq<Member>, key: string): Option<Value>
    decreases |ms|
  {
    if ms == [] then None
    else if ms[|ms| - 1].key == key then Some(ms[|ms| - 1].value)
    else Lookup(ms[..|ms| - 1], key)
  }

  /** A key reads as absent exactly when no member has it, and otherwise as its last member's value. */
  lemma {:induction false} LookupMeaning(ms: seq<Member>, key: string)
    ensures Lookup(ms, key).None? <==> forall i :: 0 <= i < |ms| ==> ms[i].key != key
    ensures Lookup(ms, key).Some? ==>
      exists i :: 0 <= i < |ms| && ms[i] == Member(key, Lookup(ms, key).value) &&
        forall j :: i < j < |ms| ==> ms[j].key != key
    decreases |ms|
  {
    if ms != [] && ms[|ms| - 1].key != key {
      var init := ms[..|ms| - 1];
      LookupMeaning(init, key);
      assert forall i :: 0 <= i < |init| ==> init[i] == ms[i];
      if Lookup(ms, key).Some? {
        var i :| 0 <= i < |init| && init[i] == Member(key, Lookup(init, key).value) &&
          forall j :: i < j < |init| ==> init[j].key != key;
        assert ms[i] == Member(key, Lookup(ms, key).value);
      }
    }
  }

  /** Python's `dict.get(key)`: an absent key and a JSON null both read as None. */
  function Get(ms: seq<Member>, key: string): (v: Value)
    ensures v != Null ==> Lookup(ms, key) == Some(v)
    ensures Lookup(ms, key).None? ==> v == Null
    ensures Lookup(ms, key).Some? ==> v == Lookup(ms, key).value
  {
    match Lookup(ms, key)
    case None => Null
    case Some(x) => x
  }

  /** Python truthiness of the parsed value. */
  predicate Truthy(v: Value)
  {
    match v
    case Null => false
    case Bool(b) => b
    case Int(n) => n != 0
    case Str(s) => s != []
    case Array(items) => items != []
    case Object(ms) => ms != []
  }

  /** `v` is an object whose `key` reads as `x`. */
  predicate Has(v: Value, key: string, x: Value)
  {
    v.Object? && Lookup(v.members, key) == Some(x)
  }

  /** No key occurs twice among the members. */
  predicate UniqueKeys(ms: seq<Member>)
  {
    forall i, j :: 0 <= i < j < |ms| ==> ms[i].key != ms[j].key
  }

  /** In an object without duplicate keys, every member's key reads as that member's value. */
  lemma LookupUnique(ms: seq<Member>, i: nat)
    requires i < |ms| && UniqueKeys(ms)
    ensures Lookup(ms, ms[i].key) == Some(ms[i].value)
  {
  }

  /** Adding a member binds its key and leaves every other key as it was. */
  lemma LookupAppend(ms: seq<Member>, m: Member, key: string)
    ensures Lookup(ms + [m], key) == if m.key == key then Some(m.value) else Lookup(ms, key)
  {
  }
}
