/** Sequences: slices, concatenations, ends and repetitions. */
module Sequences {

  lemma SliceOfSlice<T>(s: seq<T>, a: nat, b: nat, i: nat, j: nat)
    requires a <= b <= |s| && i <= j <= b - a
    ensures s[a..b][i..j] == s[a + i..a + j]
  {
    forall k | 0 <= k < j - i
      ensures s[a..b][i..j][k] == s[a + i..a + j][k]
    {
      assert s[a..b][i + k] == s[a + i + k];
    }
  }

  lemma ConcatAssociates<T>(a: seq<T>, b: seq<T>, c: seq<T>)
    ensures a + (b + c) == a + b + c
  {
  }

  /** Where a run over these places ends. */
  function End(places: seq<nat>): nat
    requires places != []
  {
    places[|places| - 1]
  }

  /** The same matcher again and again. */
  function Again(x: nat, n: nat): seq<nat> {
    seq(n, _ => x)
  }

  /** Where each key stands first, counted from `base`. */
  function FirstPlaces<K(==)>(keys: seq<K>, base: nat): map<K, nat> {
    if keys == [] then map[] else
    var before, last := FirstPlaces(keys[..|keys| - 1], base), keys[|keys| - 1];
    if last in before then before else before[last := base + |keys| - 1]
  }

  lemma {:induction false} FirstPlacesAre<K>(keys: seq<K>, base: nat, k: K)
    ensures var places := FirstPlaces(keys, base);
            && (k in places <==> k in keys)
            && (k in places ==> var i := places[k] - base; 0 <= i < |keys| && keys[i] == k && k !in keys[..i])
    decreases |keys|
  {
    if keys == [] {
    } else {
      var n := |keys| - 1;
      FirstPlacesAre(keys[..n], base, k);
      FirstPlacesAre(keys[..n], base, keys[n]);
      assert keys == keys[..n] + [keys[n]];
      assert forall i | 0 <= i <= n :: keys[..n][..i] == keys[..i];
    }
  }

  lemma FirstPlacesPush<K>(keys: seq<K>, base: nat, k: K)
    ensures var before := FirstPlaces(keys, base);
            FirstPlaces(keys + [k], base) == if k in before then before else before[k := base + |keys|]
  {
    assert (keys + [k])[..|keys|] == keys;
  }

  /** Different keys stand in different places. */
  lemma PlacesDiffer<K>(keys: seq<K>, base: nat)
    ensures var places := FirstPlaces(keys, base);
            forall a, b | a in places && b in places && a != b :: places[a] != places[b]
  {
    var places := FirstPlaces(keys, base);
    forall a, b | a in places && b in places && a != b
      ensures places[a] != places[b]
    {
      FirstPlacesAre(keys, base, a);
      FirstPlacesAre(keys, base, b);
    }
  }
}
