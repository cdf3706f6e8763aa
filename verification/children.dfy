/** Insertion-ordered child collections.

    The root keeps its groups and each group keeps its students as a sequence of
    (identifier, child) entries in the order they were added. Lookups find the
    first entry with a given identifier; adding refuses an identifier that is
    already present, which keeps identifiers unique. */
module Children {
  import opened Outcomes

  type Entries<K, V> = seq<(K, V)>

  function Keys<K(==), V>(es: Entries<K, V>): (ks: seq<K>)
    ensures |ks| == |es|
    ensures forall i :: 0 <= i < |es| ==> ks[i] == es[i].0
  {
    seq(|es|, i requires 0 <= i < |es| => es[i].0)
  }

  predicate UniqueKeys<K(==), V>(es: Entries<K, V>) {
    forall i, j :: 0 <= i < j < |es| ==> es[i].0 != es[j].0
  }

  /** Position of the first entry keyed `k`, or |es| when there is none. */
  function IndexOf<K(==), V>(es: Entries<K, V>, k: K): (i: nat)
    ensures i <= |es|
    ensures i < |es| ==> es[i].0 == k
    ensures forall j :: 0 <= j < i ==> es[j].0 != k
  {
    if |es| == 0 then 0
    else if es[0].0 == k then 0
    else 1 + IndexOf(es[1..], k)
  }

  predicate HasChild<K(==), V>(es: Entries<K, V>, k: K) {
    IndexOf(es, k) < |es|
  }

  function Lookup<K(==), V>(es: Entries<K, V>, k: K): Option<V> {
    if HasChild(es, k) then Some(es[IndexOf(es, k)].1) else None
  }

  /** Replaces the child keyed `k` (its first entry) by `v`; no-op when absent. */
  function Replace<K(==), V>(es: Entries<K, V>, k: K, v: V): (r: Entries<K, V>)
    ensures |r| == |es|
    ensures Keys(r) == Keys(es)
  {
    if HasChild(es, k) then es[IndexOf(es, k) := (k, v)] else es
  }

  /** Appends a child under a fresh key; a present key is a duplicate. */
  function AddChild<K(==), V>(es: Entries<K, V>, k: K, v: V): (r: Result<Entries<K, V>>)
    ensures r.Ok? <==> !HasChild(es, k)
    ensures r.Err? ==> r.error == DuplicateChild
    ensures r.Ok? ==> Keys(r.value) == Keys(es) + [k]
    ensures r.Ok? && UniqueKeys(es) ==> UniqueKeys(r.value)
  {
    if HasChild(es, k) then Err(DuplicateChild) else Ok(es + [(k, v)])
  }

  /** After an add, the new child is found under its key and every other key
      finds what it found before. */
  lemma LookupAddChild<K, V>(es: Entries<K, V>, k: K, v: V, k': K)
    requires AddChild(es, k, v).Ok?
    ensures Lookup(AddChild(es, k, v).value, k') == if k' == k then Some(v) else Lookup(es, k')
  {
    IndexOfAppend(es, k, v);
  }

  /** Membership by lookup agrees with membership in the key sequence. */
  lemma {:induction false} HasChildIffInKeys<K, V>(es: Entries<K, V>, k: K)
    ensures HasChild(es, k) <==> k in Keys(es)
  {
    if k in Keys(es) {
      var j :| 0 <= j < |es| && Keys(es)[j] == k;
      assert IndexOf(es, k) <= j;
    }
  }

  /** Appending an entry does not move an existing key's first position. */
  lemma {:induction false} IndexOfAppend<K, V>(es: Entries<K, V>, k: K, v: V)
    ensures IndexOf(es + [(k, v)], k) == IndexOf(es, k)
    ensures forall k' :: k' != k && IndexOf(es, k') < |es| ==> IndexOf(es + [(k, v)], k') == IndexOf(es, k')
    ensures forall k' :: k' != k && IndexOf(es, k') == |es| ==> IndexOf(es + [(k, v)], k') == |es| + 1
    decreases |es|
  {
    if |es| > 0 {
      assert (es + [(k, v)])[1..] == es[1..] + [(k, v)];
      IndexOfAppend(es[1..], k, v);
    }
  }

  /** Replacing a child changes what is found under its key and nothing else. */
  lemma LookupReplace<K, V>(es: Entries<K, V>, k: K, v: V, k': K)
    ensures Lookup(Replace(es, k, v), k') ==
      if k' == k && HasChild(es, k) then Some(v) else Lookup(es, k')
  {
    IndexOfKeysOnly(Replace(es, k, v), es, k');
  }

  /** The first position of a key depends on the key sequence alone. */
  lemma {:induction false} IndexOfKeysOnly<K, V>(a: Entries<K, V>, b: Entries<K, V>, k: K)
    requires Keys(a) == Keys(b)
    ensures IndexOf(a, k) == IndexOf(b, k)
    decreases |a|
  {
    if |a| > 0 {
      assert a[0].0 == Keys(a)[0] == Keys(b)[0] == b[0].0;
      assert Keys(a[1..]) == Keys(a)[1..] == Keys(b)[1..] == Keys(b[1..]);
      IndexOfKeysOnly(a[1..], b[1..], k);
    }
  }

  /** Replacing keeps membership and uniqueness of keys. */
  lemma ReplaceKeepsKeys<K, V>(es: Entries<K, V>, k: K, v: V)
    ensures forall k' :: HasChild(Replace(es, k, v), k') == HasChild(es, k')
    ensures UniqueKeys(es) ==> UniqueKeys(Replace(es, k, v))
  {
    var r := Replace(es, k, v);
    forall k' ensures HasChild(r, k') == HasChild(es, k') {
      HasChildIffInKeys(r, k');
      HasChildIffInKeys(es, k');
    }
    if UniqueKeys(es) {
      forall i, j | 0 <= i < j < |r| ensures r[i].0 != r[j].0 {
        assert Keys(r)[i] == Keys(es)[i] && Keys(r)[j] == Keys(es)[j];
      }
    }
  }

  /** Each entry of a uniquely keyed collection is the one found under its key. */
  lemma {:induction false} LookupUnique<K, V>(es: Entries<K, V>, i: int)
    requires UniqueKeys(es)
    requires 0 <= i < |es|
    ensures IndexOf(es, es[i].0) == i
    ensures Lookup(es, es[i].0) == Some(es[i].1)
  {
  }

  /** Adding a child twice in a row: the second add is a duplicate. */
  lemma AddChildTwice<K, V>(es: Entries<K, V>, k: K, v: V, w: V)
    requires AddChild(es, k, v).Ok?
    ensures AddChild(AddChild(es, k, v).value, k, w) == Err(DuplicateChild)
  {
    IndexOfAppend(es, k, v);
  }
}
