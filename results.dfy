/** Option and Result values: the model's stand-ins for Python's `None` and for
    an operation that may raise. */
module Results {

  /** A value that may be absent (`None` in Python). */
  datatype Option<+T> = None | Some(value: T)

  /** The outcome of an operation that either returns a value or raises. */
  datatype Result<+T, +E> = Success(value: T) | Failure(error: E)

  /** Python truthiness of an optional string: present and non-empty. */
  predicate Truthy(o: Option<string>) {
    o.Some? && o.value != ""
  }

  /** Python's `KeyError`, carrying the message the source builds. */
  datatype LookupError = KeyError(message: string)

  /** The value stored under `key` in an association list, first entry wins.
      A Python dict with unique keys in insertion order is such a list. */
  function Lookup<V>(entries: seq<(string, V)>, key: string): (r: Option<V>)
    ensures r.Some? <==> exists i :: 0 <= i < |entries| && entries[i].0 == key
    ensures r.Some? ==> (key, r.value) in entries
  {
    if entries == [] then None
    else if entries[0].0 == key then Some(entries[0].1)
    else
      var rest := Lookup(entries[1..], key);
      assert forall i :: 0 < i < |entries| ==> entries[i] == entries[1..][i - 1];
      rest
  }

  /** The keys of an association list, in order (iterating a Python dict). */
  function Keys<V>(entries: seq<(string, V)>): (r: seq<string>)
    ensures |r| == |entries|
    ensures forall i :: 0 <= i < |r| ==> r[i] == entries[i].0
  {
    if entries == [] then [] else [entries[0].0] + Keys(entries[1..])
  }

  /** The values of an association list, in order (`dict.values()`). */
  function Values<V>(entries: seq<(string, V)>): (r: seq<V>)
    ensures |r| == |entries|
    ensures forall i :: 0 <= i < |r| ==> r[i] == entries[i].1
  {
    if entries == [] then [] else [entries[0].1] + Values(entries[1..])
  }

  /** With distinct keys, looking up the key of entry `i` finds entry `i`. */
  lemma {:induction false} LookupDistinct<V>(entries: seq<(string, V)>, i: nat)
    requires i < |entries|
    requires forall j, k :: 0 <= j < k < |entries| ==> entries[j].0 != entries[k].0
    ensures Lookup(entries, entries[i].0) == Some(entries[i].1)
  {
    if i > 0 {
      assert entries[0].0 != entries[i].0;
      assert entries[1..][i - 1] == entries[i];
      LookupDistinct(entries[1..], i - 1);
    }
  }

  /** A lookup succeeds exactly for the keys of the list, and what it finds is
      one of the list's values, stored under that key. */
  lemma LookupFound<V>(entries: seq<(string, V)>, key: string)
    ensures Lookup(entries, key).Some? <==> key in Keys(entries)
    ensures Lookup(entries, key).Some? ==> exists i :: 0 <= i < |entries| && entries[i] == (key, Lookup(entries, key).value)
    ensures Lookup(entries, key).Some? ==> Lookup(entries, key).value in Values(entries)
  {
    var r := Lookup(entries, key);
    if r.Some? {
      var i :| 0 <= i < |entries| && entries[i] == (key, r.value);
      assert Keys(entries)[i] == key;
      assert Values(entries)[i] == r.value;
    }
  }
}
