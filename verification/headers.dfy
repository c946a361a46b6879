/**
 * `normalizeHeaders`: a copy of a header map whose keys are lower-cased in
 * place, one key at a time, in the order `Object.keys` enumerates them. A key
 * holding upper case is re-stored under its lower-case form and deleted; a key
 * already in lower case is left alone. When several keys fold to one, the
 * last of them to be moved decides the value.
 *
 * The loop is `NormalizeHeaders`; what it computes is described without
 * reference to the loop by `After`, the map once a prefix of the keys has been
 * visited.
 */
module Headers {
  import opened Wrappers
  import opened Host

  /** `keys` lists every key of `headers` exactly once, as `Object.keys` does. */
  ghost predicate Enumerates(keys: seq<string>, headers: map<string, string>) {
    (forall i, j :: 0 <= i < j < |keys| ==> keys[i] != keys[j])
    && (forall k :: k in headers ==> k in keys)
    && (forall k :: k in keys ==> k in headers)
  }

  /** A key the loop moves: it differs from its lower-case form. */
  predicate IsMixed(h: Host, key: string) {
    key != h.lower(key)
  }

  /** The mixed-case keys among those visited. */
  function MovedKeys(h: Host, done: seq<string>): set<string> {
    set k | k in done && IsMixed(h, k)
  }

  /** The last visited mixed-case key that folds to `x`. */
  function LastMixed(h: Host, done: seq<string>, x: string): (r: Option<string>)
    ensures r.Some? ==> r.value in MovedKeys(h, done) && h.lower(r.value) == x
    ensures r.None? ==> forall k :: k in MovedKeys(h, done) ==> h.lower(k) != x
  {
    if done == [] then None
    else
      var k := done[|done| - 1];
      if IsMixed(h, k) && h.lower(k) == x then Some(k)
      else
        assert forall m :: m in done ==> m == k || m in done[..|done| - 1];
        LastMixed(h, done[..|done| - 1], x)
  }

  /** The keys once `done` has been visited: the unmoved keys and the lower-case forms of the moved ones. */
  function KeysAfter(h: Host, headers: map<string, string>, done: seq<string>): set<string> {
    (headers.Keys - MovedKeys(h, done)) + set k | k in MovedKeys(h, done) :: h.lower(k)
  }

  /** The value under `x` once `done` has been visited: that of the last mixed-case key folding to `x`, else its own. */
  function ValueAfter(h: Host, headers: map<string, string>, done: seq<string>, x: string): string
    requires forall k :: k in done ==> k in headers
    requires x in KeysAfter(h, headers, done)
  {
    match LastMixed(h, done, x)
    case Some(k) => headers[k]
    case None => headers[x]
  }

  /** The map once the keys in `done` have been visited. */
  function After(h: Host, headers: map<string, string>, done: seq<string>): (m: map<string, string>)
    requires forall k :: k in done ==> k in headers
    ensures m.Keys == KeysAfter(h, headers, done)
    ensures forall x :: x in m ==> m[x] == ValueAfter(h, headers, done, x)
  {
    map x | x in KeysAfter(h, headers, done) :: ValueAfter(h, headers, done, x)
  }

  /** The lower-case form of a key is never itself moved. */
  lemma LowerIsNotMixed(h: Host, k: string)
    requires Lawful(h)
    ensures !IsMixed(h, h.lower(k))
  {
  }

  lemma LastMixedSnoc(h: Host, done: seq<string>, k: string, x: string)
    ensures LastMixed(h, done + [k], x)
      == if IsMixed(h, k) && h.lower(k) == x then Some(k) else LastMixed(h, done, x)
  {
    var d := done + [k];
    assert d[..|d| - 1] == done && d[|d| - 1] == k;
  }

  lemma MovedKeysSnoc(h: Host, done: seq<string>, k: string)
    ensures MovedKeys(h, done + [k]) == MovedKeys(h, done) + if IsMixed(h, k) then {k} else {}
  {
  }

  /** Visiting an unmoved key changes nothing. */
  lemma LowerStep(h: Host, headers: map<string, string>, done: seq<string>, k: string)
    requires forall m :: m in done ==> m in headers
    requires k in headers && !IsMixed(h, k)
    ensures After(h, headers, done + [k]) == After(h, headers, done)
  {
    MovedKeysSnoc(h, done, k);
    forall x ensures LastMixed(h, done + [k], x) == LastMixed(h, done, x) {
      LastMixedSnoc(h, done, k, x);
    }
  }

  lemma MixedStepKeys(h: Host, headers: map<string, string>, done: seq<string>, k: string)
    requires IsMixed(h, k) && forall m :: m in MovedKeys(h, done) ==> h.lower(m) != k
    ensures KeysAfter(h, headers, done + [k]) == (KeysAfter(h, headers, done) + {h.lower(k)}) - {k}
  {
    MovedKeysSnoc(h, done, k);
    var moved := MovedKeys(h, done);
    var left := KeysAfter(h, headers, done + [k]);
    var right := (KeysAfter(h, headers, done) + {h.lower(k)}) - {k};
    forall x | x in left ensures x in right {
      if x !in headers.Keys - (moved + {k}) {
        var m :| m in moved + {k} && x == h.lower(m);
      }
    }
    forall x | x in right ensures x in left {
      if x != h.lower(k) && x !in headers.Keys - moved {
        var m :| m in moved && x == h.lower(m);
        assert m in moved + {k};
      }
    }
  }

  /** Visiting a mixed-case key re-stores its value under its lower-case form and deletes it. */
  lemma MixedStep(h: Host, headers: map<string, string>, done: seq<string>, k: string)
    requires forall m :: m in done ==> m in headers
    requires k in headers && k !in done && IsMixed(h, k)
    // what lower-casing being idempotent gives here
    requires forall m :: m in MovedKeys(h, done) ==> h.lower(m) != k
    ensures k in After(h, headers, done)
    ensures var a := After(h, headers, done);
      After(h, headers, done + [k]) == a[h.lower(k) := a[k]] - {k}
  {
    var a := After(h, headers, done);
    var b := After(h, headers, done + [k]);
    MovedKeysSnoc(h, done, k);
    assert k in a;
    assert LastMixed(h, done, k) == None;
    var c := a[h.lower(k) := a[k]] - {k};
    MixedStepKeys(h, headers, done, k);
    assert b.Keys == c.Keys;
    forall x | x in b ensures b[x] == c[x] {
      LastMixedSnoc(h, done, k, x);
      if x != h.lower(k) {
        assert x in a;
        assert ValueAfter(h, headers, done + [k], x) == ValueAfter(h, headers, done, x);
      }
    }
  }

  /** Visiting the key at `i` changes the map exactly as the loop body does. */
  lemma AfterStep(h: Host, headers: map<string, string>, keys: seq<string>, i: nat)
    requires Lawful(h) && Enumerates(keys, headers) && i < |keys|
    ensures keys[i] in After(h, headers, keys[..i])
    ensures var a := After(h, headers, keys[..i]);
      After(h, headers, keys[..i + 1])
      == if IsMixed(h, keys[i]) then a[h.lower(keys[i]) := a[keys[i]]] - {keys[i]} else a
  {
    var done, k := keys[..i], keys[i];
    assert keys[..i + 1] == done + [k];
    assert k !in done;
    if IsMixed(h, k) {
      LowerIsNotMixed(h, k);
      forall m | m in MovedKeys(h, done) ensures h.lower(m) != k {
        LowerIsNotMixed(h, m);
      }
      MixedStep(h, headers, done, k);
    } else {
      MovedKeysSnoc(h, done, k);
      assert k !in MovedKeys(h, done);
      LowerStep(h, headers, done, k);
    }
  }

  /** The loop of `normalizeHeaders` on the copy of `headers`, visiting `keys` in order. */
  method NormalizeHeaders(h: Host, headers: map<string, string>, keys: seq<string>) returns (standard: map<string, string>)
    requires Lawful(h) && Enumerates(keys, headers)
    ensures standard == After(h, headers, keys)
  {
    standard := headers;
    var i := 0;
    assert keys[..0] == [];
    assert After(h, headers, keys[..0]) == headers;
    while i < |keys|
      invariant 0 <= i <= |keys|
      invariant standard == After(h, headers, keys[..i])
    {
      AfterStep(h, headers, keys, i);
      var key := keys[i];
      if key != h.lower(key) {
        standard := standard[h.lower(key) := standard[key]] - {key};
      }
      i := i + 1;
    }
    assert keys[..i] == keys;
  }

  // ---------------------------------------------------------------------
  // What the loop promises
  // ---------------------------------------------------------------------

  /** Every key of the result is in lower case. */
  lemma KeysAreLower(h: Host, headers: map<string, string>, keys: seq<string>)
    requires Lawful(h) && Enumerates(keys, headers)
    ensures forall x :: x in After(h, headers, keys) ==> h.lower(x) == x
  {
    forall x | x in After(h, headers, keys) ensures h.lower(x) == x {
      if x in headers.Keys - MovedKeys(h, keys) {
        assert !IsMixed(h, x);
      } else {
        var k :| k in MovedKeys(h, keys) && x == h.lower(k);
        LowerIsNotMixed(h, k);
      }
    }
  }

  /** The result's keys are exactly the lower-case forms of the input's keys. */
  lemma KeysAreLowerImage(h: Host, headers: map<string, string>, keys: seq<string>)
    requires Lawful(h) && Enumerates(keys, headers)
    ensures After(h, headers, keys).Keys == set k | k in headers :: h.lower(k)
  {
    var image := set k | k in headers :: h.lower(k);
    forall x | x in image ensures x in KeysAfter(h, headers, keys) {
      var k :| k in headers && x == h.lower(k);
      if !IsMixed(h, k) {
        assert k !in MovedKeys(h, keys);
      }
    }
    forall x | x in KeysAfter(h, headers, keys) ensures x in image {
      if x in headers.Keys - MovedKeys(h, keys) {
        assert !IsMixed(h, x);
      }
    }
  }

  /** Values are only moved: each one is the value of an input key folding to its new key. */
  lemma ValuesOnlyMoved(h: Host, headers: map<string, string>, keys: seq<string>, x: string)
    requires Lawful(h) && Enumerates(keys, headers)
    requires x in After(h, headers, keys)
    ensures exists k :: k in headers && h.lower(k) == x && After(h, headers, keys)[x] == headers[k]
  {
    match LastMixed(h, keys, x)
    case Some(k) =>
    case None =>
      assert x in headers && !IsMixed(h, x);
  }

  /** The key at position `i` is the last mixed-case key in key order that folds to `x`. */
  predicate LastFoldingAt(h: Host, keys: seq<string>, i: int, x: string) {
    0 <= i < |keys| && IsMixed(h, keys[i]) && h.lower(keys[i]) == x
    && forall j :: i < j < |keys| ==> !(IsMixed(h, keys[j]) && h.lower(keys[j]) == x)
  }

  lemma {:induction false} LastMixedIsLastFolding(h: Host, keys: seq<string>, i: int, x: string)
    requires LastFoldingAt(h, keys, i, x)
    ensures LastMixed(h, keys, x) == Some(keys[i])
    decreases |keys|
  {
    var n := |keys| - 1;
    if i < n {
      assert LastFoldingAt(h, keys[..n], i, x);
      LastMixedIsLastFolding(h, keys[..n], i, x);
    }
  }

  /** Among keys that fold together, the last mixed-case one in key order gives the value. */
  lemma LastMixedWins(h: Host, headers: map<string, string>, keys: seq<string>, i: int, x: string)
    requires Lawful(h) && Enumerates(keys, headers)
    requires LastFoldingAt(h, keys, i, x)
    ensures x in After(h, headers, keys) && After(h, headers, keys)[x] == headers[keys[i]]
  {
    LastMixedIsLastFolding(h, keys, i, x);
    assert keys[i] in MovedKeys(h, keys);
  }

  /** A lower-case key keeps its own value when no mixed-case key folds onto it. */
  lemma LowerKeyKeepsValue(h: Host, headers: map<string, string>, keys: seq<string>, x: string)
    requires Lawful(h) && Enumerates(keys, headers)
    requires x in headers && !IsMixed(h, x)
    requires forall k :: k in headers && IsMixed(h, k) ==> h.lower(k) != x
    ensures x in After(h, headers, keys) && After(h, headers, keys)[x] == headers[x]
  {
    assert x !in MovedKeys(h, keys);
  }

  /** On a map whose keys are all in lower case, the loop changes nothing. */
  lemma LowerCaseMapUnchanged(h: Host, headers: map<string, string>, keys: seq<string>)
    requires Enumerates(keys, headers)
    requires forall k :: k in headers ==> h.lower(k) == k
    ensures After(h, headers, keys) == headers
  {
    assert MovedKeys(h, keys) == {};
    assert KeysAfter(h, headers, keys) == headers.Keys;
  }

  /** Normalizing the result again, in any key order, gives the same map. */
  lemma NormalizeIdempotent(h: Host, headers: map<string, string>, keys: seq<string>, keys2: seq<string>)
    requires Lawful(h) && Enumerates(keys, headers)
    requires Enumerates(keys2, After(h, headers, keys))
    ensures After(h, After(h, headers, keys), keys2) == After(h, headers, keys)
  {
    KeysAreLower(h, headers, keys);
    LowerCaseMapUnchanged(h, After(h, headers, keys), keys2);
  }
}
