/** PHP arrays with string keys: insertion-ordered maps. */
module OrderedMaps {

  /** The keys in insertion order, and the value of each key. */
  datatype Assoc<V> = Assoc(keys: seq<string>, values: map<string, V>)

  /** Every key occurs once in the order, and the order lists exactly the keys of the map. */
  predicate WellFormed<V>(m: Assoc<V>)
  {
    && (forall i, j :: 0 <= i < j < |m.keys| ==> m.keys[i] != m.keys[j])
    && (forall k :: k in m.keys ==> k in m.values)
    && (forall k :: k in m.values ==> k in m.keys)
  }

  type OrderedMap<V> = m: Assoc<V> | WellFormed(m) witness Assoc([], map[])

  function Empty<V>(): OrderedMap<V>
  {
    Assoc([], map[])
  }

  /** `$m[$k] = $v`: an existing key keeps its position, a new key goes last. */
  function Put<V>(m: OrderedMap<V>, k: string, v: V): OrderedMap<V>
  {
    if k in m.values then Assoc(m.keys, m.values[k := v])
    else Assoc(m.keys + [k], m.values[k := v])
  }

  /** `Put` keeps the existing keys in their order, in front, and assigns one value. */
  lemma PutKeepsOrder<V>(m: OrderedMap<V>, k: string, v: V)
    ensures |m.keys| <= |Put(m, k, v).keys| && Put(m, k, v).keys[..|m.keys|] == m.keys
    ensures Put(m, k, v).values == m.values[k := v]
  {
    assert (m.keys + [k])[..|m.keys|] == m.keys;
  }

  /** A prefix of a prefix is a prefix. */
  lemma PrefixTransitive(a: seq<string>, b: seq<string>, c: seq<string>)
    requires |a| <= |b| <= |c| && c[..|b|] == b && b[..|a|] == a
    ensures c[..|a|] == a
  {
    assert c[..|a|] == c[..|b|][..|a|];
  }

  /** `[$k => $v]` */
  function Single<V>(k: string, v: V): OrderedMap<V>
  {
    Put(Empty(), k, v)
  }

  /** `array_merge($a, $b)`: the entries of `b`, in order, assigned into `a`. */
  function Merge<V>(a: OrderedMap<V>, b: OrderedMap<V>): OrderedMap<V>
  {
    PutFrom(a, b, 0)
  }

  /** Assigns the entries of `b` from position `i` on into `a`. */
  function PutFrom<V>(a: OrderedMap<V>, b: OrderedMap<V>, i: nat): OrderedMap<V>
    requires i <= |b.keys|
    decreases |b.keys| - i
  {
    if i == |b.keys| then a
    else PutFrom(Put(a, b.keys[i], b.values[b.keys[i]]), b, i + 1)
  }

  /** The keys of `ks`, in order, that are not in `present`. */
  function Fresh(ks: seq<string>, present: set<string>): (r: seq<string>)
    ensures forall k :: k in r ==> k in ks && k !in present
  {
    if ks == [] then []
    else (if ks[0] in present then [] else [ks[0]]) + Fresh(ks[1..], present)
  }

  /** Adding to `present` a key that `ks` does not hold does not change what is fresh. */
  lemma {:induction false} FreshIgnoresAbsent(ks: seq<string>, present: set<string>, k: string)
    requires k !in ks
    ensures Fresh(ks, present + {k}) == Fresh(ks, present)
  {
    if ks != [] {
      assert ks[0] != k;
      FreshIgnoresAbsent(ks[1..], present, k);
    }
  }

  /** Concatenation is associative; stated for the steps that regroup keys and logs. */
  lemma AppendAssociative<T>(a: seq<T>, b: seq<T>, c: seq<T>)
    ensures (a + b) + c == a + (b + c)
  {
  }

  /** The keys of `b` from position `i` on that are fresh: the one at `i` if it is, then the
      rest; the key at `i` does not come again. */
  lemma FreshStep<V>(b: OrderedMap<V>, present: set<string>, i: nat)
    requires i < |b.keys|
    ensures Fresh(b.keys[i..], present)
         == (if b.keys[i] in present then [] else [b.keys[i]]) + Fresh(b.keys[i + 1..], present)
    ensures b.keys[i] !in b.keys[i + 1..]
  {
    assert b.keys[i..] == [b.keys[i]] + b.keys[i + 1..];
    forall j | i + 1 <= j < |b.keys| ensures b.keys[j] != b.keys[i] { }
  }

  /** The order after assigning the entries of `b` from position `i` on. */
  lemma {:induction false} PutFromKeys<V>(a: OrderedMap<V>, b: OrderedMap<V>, i: nat)
    requires i <= |b.keys|
    ensures PutFrom(a, b, i).keys == a.keys + Fresh(b.keys[i..], a.values.Keys)
    decreases |b.keys| - i
  {
    if i < |b.keys| {
      var k := b.keys[i];
      var a' := Put(a, k, b.values[k]);
      var added := if k in a.values.Keys then [] else [k];
      assert a'.keys == a.keys + added;
      assert PutFrom(a, b, i) == PutFrom(a', b, i + 1);
      PutFromKeys(a', b, i + 1);
      FreshStep(b, a.values.Keys, i);
      FreshIgnoresAbsent(b.keys[i + 1..], a.values.Keys, k);
      assert a'.values.Keys == a.values.Keys + {k};
      AppendAssociative(a.keys, added, Fresh(b.keys[i + 1..], a.values.Keys));
    } else {
      assert b.keys[i..] == [];
    }
  }

  /** The value of one key after assigning the entries of `b` from position `i` on: `b`'s
      when one of its remaining keys, `a`'s otherwise. */
  lemma {:induction false} PutFromAt<V>(a: OrderedMap<V>, b: OrderedMap<V>, i: nat, x: string)
    requires i <= |b.keys|
    ensures x in PutFrom(a, b, i).values <==> x in a.values || x in b.keys[i..]
    ensures x in b.keys[i..] ==> x in PutFrom(a, b, i).values && PutFrom(a, b, i).values[x] == b.values[x]
    ensures x in a.values && x !in b.keys[i..] ==> PutFrom(a, b, i).values[x] == a.values[x]
    decreases |b.keys| - i
  {
    if i < |b.keys| {
      var k := b.keys[i];
      var a' := Put(a, k, b.values[k]);
      assert a'.values == a.values[k := b.values[k]] by {
        PutKeepsOrder(a, k, b.values[k]);
      }
      assert PutFrom(a, b, i) == PutFrom(a', b, i + 1);
      assert x in b.keys[i..] <==> x == k || x in b.keys[i + 1..] by {
        assert b.keys[i..] == [k] + b.keys[i + 1..];
      }
      PutFromAt(a', b, i + 1, x);
    }
  }

  /** The values after assigning the entries of `b` from position `i` on: those of `b`'s
      remaining keys, and those of `a` elsewhere. */
  lemma PutFromValues<V>(a: OrderedMap<V>, b: OrderedMap<V>, i: nat)
    requires i <= |b.keys|
    ensures forall k :: k in PutFrom(a, b, i).values <==> k in a.values || k in b.keys[i..]
    ensures forall k :: k in b.keys[i..] ==> PutFrom(a, b, i).values[k] == b.values[k]
    ensures forall k :: k in a.values && k !in b.keys[i..] ==> PutFrom(a, b, i).values[k] == a.values[k]
  {
    forall x ensures x in PutFrom(a, b, i).values <==> x in a.values || x in b.keys[i..] {
      PutFromAt(a, b, i, x);
    }
    forall x | x in b.keys[i..] ensures PutFrom(a, b, i).values[x] == b.values[x] {
      PutFromAt(a, b, i, x);
    }
    forall x | x in a.values && x !in b.keys[i..] ensures PutFrom(a, b, i).values[x] == a.values[x] {
      PutFromAt(a, b, i, x);
    }
  }

  /** `array_merge` keeps the order of `a` and appends the keys only `b` has, in `b`'s order. */
  lemma MergeKeys<V>(a: OrderedMap<V>, b: OrderedMap<V>)
    ensures Merge(a, b).keys == a.keys + Fresh(b.keys, a.values.Keys)
  {
    PutFromKeys(a, b, 0);
    assert b.keys[0..] == b.keys;
  }

  /** `array_merge` takes the value from `b` wherever `b` has the key, and from `a` elsewhere. */
  lemma MergeValues<V>(a: OrderedMap<V>, b: OrderedMap<V>)
    ensures Merge(a, b).values == a.values + b.values
  {
    PutFromValues(a, b, 0);
    assert b.keys[0..] == b.keys;
    var r := Merge(a, b).values;
    forall k | k in r ensures k in a.values + b.values && r[k] == (a.values + b.values)[k] {
      if k in b.values { assert k in b.keys; }
    }
    forall k | k in b.values ensures k in r { assert k in b.keys; }
  }

  /** What `array_merge` promises entry by entry: `b` wins, `a`'s other entries stay. */
  lemma MergeWins<V>(a: OrderedMap<V>, b: OrderedMap<V>)
    ensures Merge(a, b).keys == a.keys + Fresh(b.keys, a.values.Keys)
    ensures forall k :: k in b.values ==> k in Merge(a, b).values && Merge(a, b).values[k] == b.values[k]
    ensures forall k :: k in a.values && k !in b.values ==> k in Merge(a, b).values && Merge(a, b).values[k] == a.values[k]
  {
    MergeKeys(a, b);
    MergeValues(a, b);
  }

  /** Merging nothing in changes nothing. */
  lemma MergeEmpty<V>(a: OrderedMap<V>)
    ensures Merge(a, Empty()) == a
  {
  }
}
