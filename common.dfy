/** Values shared by every part of the binding: bytes, the Python exceptions the
    binding raises (as an error datatype), and the few Python list and dict
    behaviours the binding relies on (list.remove, insertion-ordered dicts). */
module Common {

  /** An unsigned 8-bit value, as a C `unsigned char` or a Python `bytes` item. */
  newtype byte = x: int | 0 <= x < 256

  datatype Option<+T> = None | Some(value: T)

  /** One constructor per exception the modelled code raises. */
  datatype Error =
    | ApiError                                  // NanoMsgAPIError: a native call returned a negative status
    | ConflictingArguments                      // NanoMsgError: both protocol and socket_fd given to Socket()
    | OptionSizeMismatch(length: int, size: int) // NanoMsgError: get_int_option got the wrong option size
    | SoleEndpoint                              // ValueError: a nanoconfig address must be the sole endpoint
    | NotInList                                 // ValueError raised by list.remove
    | ShutdownNotSupported                      // NotImplementedError from NanoconfigEndpoint.shutdown
    | ReadOnlyBuffer                            // TypeError: a writable buffer is required
    | NotAddressable                            // TypeError from ctypes.addressof: not a ctypes object
    | PackOutOfRange                            // struct.error: the value does not fit a C int
    | UnknownCType(typeDef: string)             // KeyError raised by the C type lookup
    | MalformedDeclaration(text: string)        // ValueError/TypeError from unpacking a split declaration
    | NonAsciiName                              // UnicodeDecodeError decoding a symbol name as ASCII
    | ImportError(moduleName: string)           // ImportError from importlib.import_module
    | ModuleInitError(moduleName: string)       // another exception (OSError) raised while the module initialises

  datatype Result<+T> = Ok(value: T) | Err(error: Error)

  predicate StartsWith(s: string, prefix: string) {
    |prefix| <= |s| && s[..|prefix|] == prefix
  }

  /** Python's `list.index(x)`: the first position holding `x`. */
  function IndexOf<T(==)>(s: seq<T>, x: T): (i: nat)
    requires x in s
    ensures i < |s| && s[i] == x && x !in s[..i]
  {
    if s[0] == x then 0 else 1 + IndexOf(s[1..], x)
  }

  /** `list.index(x)` is the position of an `x` with none before it. */
  lemma IndexOfAt<T>(s: seq<T>, x: T, i: nat)
    requires i < |s| && s[i] == x
    requires forall j :: 0 <= j < i ==> s[j] != x
    ensures IndexOf(s, x) == i
  {
    var k := IndexOf(s, x);
    forall j | 0 <= j < k
      ensures s[j] != x
    {
      assert s[j] == s[..k][j];
    }
  }

  /** Python's `list.remove(x)` on a list that holds `x`: drops its first occurrence. */
  function RemoveFirst<T(==)>(s: seq<T>, x: T): (r: seq<T>)
    requires x in s
    ensures |r| == |s| - 1
    ensures multiset(r) == multiset(s) - multiset{x}
  {
    var i := IndexOf(s, x);
    assert s == s[..i] + [x] + s[i + 1..];
    s[..i] + s[i + 1..]
  }

  ghost predicate Distinct<T>(s: seq<T>) {
    forall i, j :: 0 <= i < j < |s| ==> s[i] != s[j]
  }

  /** Removing the only occurrence of `x` from a list without repetitions leaves
      a list without repetitions that no longer holds `x`, and keeps every other element. */
  lemma RemoveFirstOfDistinct<T>(s: seq<T>, x: T)
    requires x in s && Distinct(s)
    ensures Distinct(RemoveFirst(s, x))
    ensures x !in RemoveFirst(s, x)
    ensures forall y :: y in RemoveFirst(s, x) <==> y in s && y != x
  {
    var i := IndexOf(s, x);
    var r := RemoveFirst(s, x);
    assert r == s[..i] + s[i + 1..];
    assert x !in s[i + 1..] by {
      forall k | i + 1 <= k < |s| ensures s[k] != x { assert s[i] == x; }
    }
    forall y ensures y in r <==> y in s && y != x {
      assert y in r <==> multiset(r)[y] > 0;
      assert y in s <==> multiset(s)[y] > 0;
    }
    RemoveAtDistinct(s, i);
  }

  lemma RemoveAtDistinct<T>(s: seq<T>, i: nat)
    requires i < |s| && Distinct(s)
    ensures Distinct(s[..i] + s[i + 1..])
  {
    var r := s[..i] + s[i + 1..];
    forall a, b | 0 <= a < b < |r| ensures r[a] != r[b] {
      var a' := if a < i then a else a + 1;
      var b' := if b < i then b else b + 1;
      assert r[a] == s[a'] && r[b] == s[b'];
    }
  }

  // ---------------------------------------------------------------------------
  // Insertion-ordered dictionaries (Python 3.7+ dict), as lists of key/value pairs.
  // ---------------------------------------------------------------------------

  function Keys<K, V>(d: seq<(K, V)>): (ks: seq<K>)
    ensures |ks| == |d| && forall i :: 0 <= i < |d| ==> ks[i] == d[i].0
  {
    seq(|d|, i requires 0 <= i < |d| => d[i].0)
  }

  /** `d.get(k)`. */
  function Get<K(==), V>(d: seq<(K, V)>, k: K): (r: Option<V>)
    ensures r.Some? <==> k in Keys(d)
    ensures r.Some? ==> exists i :: 0 <= i < |d| && d[i] == (k, r.value)
  {
    if k in Keys(d) then Some(d[IndexOf(Keys(d), k)].1) else None
  }

  /** `d[k] = v`: an existing key keeps its position, a new key goes last. */
  function Put<K(==), V>(d: seq<(K, V)>, k: K, v: V): (r: seq<(K, V)>)
    requires Distinct(Keys(d))
    ensures Distinct(Keys(r))
    ensures k in Keys(d) ==> Keys(r) == Keys(d)
    ensures k !in Keys(d) ==> Keys(r) == Keys(d) + [k]
    ensures forall i :: 0 <= i < |d| ==> r[i] == if d[i].0 == k then (k, v) else d[i]
    ensures k !in Keys(d) ==> r[|d|] == (k, v)
  {
    if k in Keys(d) then
      var i := IndexOf(Keys(d), k);
      d[i := (k, v)]
    else
      d + [(k, v)]
  }

  /** In a dict, the key at position `i` reads back the value stored there. */
  lemma GetAt<K, V>(d: seq<(K, V)>, i: nat)
    requires Distinct(Keys(d)) && i < |d|
    ensures Get(d, d[i].0) == Some(d[i].1)
  {
    var ks := Keys(d);
    assert ks[i] == d[i].0;
    IndexOfAt(ks, d[i].0, i);
  }

  /** After `d[k] = v`, `k` reads back `v` and every other key reads what it did before. */
  lemma GetPut<K, V>(d: seq<(K, V)>, k: K, v: V, j: K)
    requires Distinct(Keys(d))
    ensures Get(Put(d, k, v), j) == if j == k then Some(v) else Get(d, j)
  {
    var r := Put(d, k, v);
    if j == k {
      var i := if k in Keys(d) then IndexOf(Keys(d), k) else |d|;
      assert r[i] == (k, v);
      GetAt(r, i);
    } else if j in Keys(d) {
      var i := IndexOf(Keys(d), j);
      assert r[i] == d[i];
      GetAt(r, i);
      GetAt(d, i);
    } else {
      assert j !in Keys(r);
    }
  }

  /** The dict `for k, v in pairs: d[k] = v` leaves, starting from `d`. */
  function Collect<K(==), V>(d: seq<(K, V)>, pairs: seq<(K, V)>): (r: seq<(K, V)>)
    requires Distinct(Keys(d))
    ensures Distinct(Keys(r))
  {
    if pairs == [] then d
    else
      var last := pairs[|pairs| - 1];
      Put(Collect(d, pairs[..|pairs| - 1]), last.0, last.1)
  }

  /** A key that the loop assigns holds the value of its last assignment. */
  lemma {:induction false} CollectLast<K, V>(d: seq<(K, V)>, pairs: seq<(K, V)>, i: nat)
    requires Distinct(Keys(d)) && i < |pairs|
    requires forall j :: i < j < |pairs| ==> pairs[j].0 != pairs[i].0
    ensures Get(Collect(d, pairs), pairs[i].0) == Some(pairs[i].1)
  {
    var init := pairs[..|pairs| - 1];
    var last := pairs[|pairs| - 1];
    GetPut(Collect(d, init), last.0, last.1, pairs[i].0);
    if i < |init| {
      assert init[i] == pairs[i];
      CollectLast(d, init, i);
    }
  }

  /** A key that the loop never assigns keeps what it held before. */
  lemma {:induction false} CollectUntouched<K, V>(d: seq<(K, V)>, pairs: seq<(K, V)>, k: K)
    requires Distinct(Keys(d))
    requires forall j :: 0 <= j < |pairs| ==> pairs[j].0 != k
    ensures Get(Collect(d, pairs), k) == Get(d, k)
  {
    if pairs != [] {
      var init := pairs[..|pairs| - 1];
      var last := pairs[|pairs| - 1];
      GetPut(Collect(d, init), last.0, last.1, k);
      CollectUntouched(d, init, k);
    }
  }

  /** The loop leaves exactly the keys that were there before or were assigned. */
  lemma {:induction false} CollectKeys<K, V>(d: seq<(K, V)>, pairs: seq<(K, V)>, k: K)
    requires Distinct(Keys(d))
    ensures k in Keys(Collect(d, pairs)) <==> k in Keys(d) || k in Keys(pairs)
  {
    if pairs != [] {
      var init := pairs[..|pairs| - 1];
      var last := pairs[|pairs| - 1];
      var c := Collect(d, init);
      CollectKeys(d, init, k);
      assert Keys(pairs)[|pairs| - 1] == last.0;
      if k in Keys(pairs) {
        var j :| 0 <= j < |pairs| && Keys(pairs)[j] == k;
        if j < |init| {
          assert Keys(init)[j] == k;
        }
      }
      if k in Keys(init) {
        var j :| 0 <= j < |init| && Keys(init)[j] == k;
        assert Keys(pairs)[j] == k;
      }
      assert k in Keys(pairs) <==> k in Keys(init) || k == last.0;
      assert k in Keys(c) <==> k in Keys(d) || k in Keys(init);
      assert Collect(d, pairs) == Put(c, last.0, last.1);
      assert k in Keys(Put(c, last.0, last.1)) <==> k in Keys(c) || k == last.0;
    }
  }
}
