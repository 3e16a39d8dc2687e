/** Values shared by every module: an optional value (the Java code's `null`),
    the runtime exceptions the server can raise while handling a request, and a
    result that carries either a value or such an exception. */
module Common {

  /** `None` stands for a Java `null` reference. */
  datatype Option<+T> = None | Some(value: T)

  /** The unchecked Java exceptions that input can provoke inside one request cycle.
      None of them is caught by the pipeline: each ends the connection without a response. */
  datatype Fault =
    | IllegalArgument      // Method.valueOf on a token that names no method
    | IndexOutOfBounds     // substring/array index past the end (empty header name, query pair without '=')
    | NumberFormat         // Integer.parseInt on a Content-Length that is not a decimal int
    | NullPointer          // dereference of a missing value (request content, Last-Modified)

  datatype Result<+T> = Ok(value: T) | Err(fault: Fault)

  /** An 8-bit value of a response body. */
  newtype byte = b: int | 0 <= b < 256

  /** The platform charset of `String.getBytes()`: how text becomes body bytes. */
  type Charset = string -> seq<byte>

  /** The value a map holds for a key, if any. */
  function Find<K(==), V>(m: map<K, V>, k: K): Option<V>
  {
    if k in m then Some(m[k]) else None
  }

  /** Every pair put into the map in order (`Map.put`, one after the other). */
  function PutAll<K(==), V>(m: map<K, V>, kvs: seq<(K, V)>): map<K, V>
    decreases |kvs|
  {
    if kvs == [] then m else PutAll(m[kvs[0].0 := kvs[0].1], kvs[1..])
  }

  /** Concatenation regroups: used to line a text up with the pieces a lemma expects. */
  lemma AppendAssoc<T>(a: seq<T>, b: seq<T>, c: seq<T>)
    ensures a + (b + c) == a + b + c
  {
  }

  /** Putting a leading pair first, then the rest. */
  lemma PutAllCons<K, V>(m: map<K, V>, kv: (K, V), kvs: seq<(K, V)>)
    ensures PutAll(m, [kv] + kvs) == PutAll(m[kv.0 := kv.1], kvs)
  {
    assert ([kv] + kvs)[0] == kv && ([kv] + kvs)[1..] == kvs;
  }

  /** Reference reading: the value of the last pair whose key is `k`, if there is one. */
  function Latest<K(==), V>(kvs: seq<(K, V)>, k: K): (v: Option<V>)
    ensures v.None? <==> forall i :: 0 <= i < |kvs| ==> kvs[i].0 != k
    ensures v.Some? ==> exists i :: 0 <= i < |kvs| && kvs[i] == (k, v.value) &&
                                    (forall j :: i < j < |kvs| ==> kvs[j].0 != k)
    decreases |kvs|
  {
    if kvs == [] then None
    else if kvs[|kvs| - 1].0 == k then Some(kvs[|kvs| - 1].1)
    else Latest(kvs[..|kvs| - 1], k)
  }

  lemma {:induction false} LatestAfterFirst<K, V>(kv: (K, V), kvs: seq<(K, V)>, k: K)
    ensures Latest([kv] + kvs, k) ==
      if Latest(kvs, k).Some? then Latest(kvs, k) else if kv.0 == k then Some(kv.1) else None
    decreases |kvs|
  {
    var all := [kv] + kvs;
    if kvs != [] {
      assert all[|all| - 1] == kvs[|kvs| - 1];
      assert all[..|all| - 1] == [kv] + kvs[..|kvs| - 1];
      LatestAfterFirst(kv, kvs[..|kvs| - 1], k);
    } else {
      assert all == [kv];
      assert all[..0] == [];
    }
  }

  /** Putting the pairs in order leaves, under every key, the value of the
      last pair with that key (later duplicates overwrite earlier ones), and
      whatever the map held for keys no pair mentions. */
  lemma {:induction false} PutAllLastWins<K, V>(m: map<K, V>, kvs: seq<(K, V)>, k: K)
    ensures Find(PutAll(m, kvs), k) == if Latest(kvs, k).Some? then Latest(kvs, k) else Find(m, k)
    decreases |kvs|
  {
    if kvs != [] {
      var m' := m[kvs[0].0 := kvs[0].1];
      PutAllLastWins(m', kvs[1..], k);
      LatestAfterFirst(kvs[0], kvs[1..], k);
      assert [kvs[0]] + kvs[1..] == kvs;
    }
  }

}
