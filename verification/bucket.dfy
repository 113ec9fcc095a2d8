/** The object store behind the service, reduced to a map from key to stored
    object, with the key scheme `path/fileName` and the order in which the store
    lists keys. */
module Bucket {
  import opened Variants

  /** A stored object: the pixel bytes are abstracted to the variant's size,
      and the `ContentType` it was uploaded with is kept. */
  datatype StoredObject = StoredObject(width: nat, height: nat, contentType: string)

  type Store = map<string, StoredObject>

  /** The object key `${path}/${fileName}`. */
  function KeyOf(path: string, name: string): string
  {
    path + "/" + name
  }

  /** The keys of every variant of `name`, in table order. */
  function VariantKeys(name: string): seq<string>
  {
    seq(|Sizes|, i requires 0 <= i < |Sizes| => KeyOf(Sizes[i].path, name))
  }

  /** `a` and `b` hold the same object under `k`, or both lack `k`. */
  predicate SameAt(a: Store, b: Store, k: string)
  {
    (k in a <==> k in b) && (k in a ==> a[k] == b[k])
  }

  /** Slash-free paths make `KeyOf` injective: the first `/` of a key ends its path. */
  lemma KeyOfInjective(p1: string, n1: string, p2: string, n2: string)
    requires '/' !in p1 && '/' !in p2
    requires KeyOf(p1, n1) == KeyOf(p2, n2)
    ensures p1 == p2 && n1 == n2
  {
    var k := KeyOf(p1, n1);
    assert k[|p1|] == '/' && k[|p2|] == '/';
    assert forall j :: 0 <= j < |p1| ==> k[j] == p1[j];
    assert forall j :: 0 <= j < |p2| ==> k[j] == p2[j];
    assert |p1| == |p2|;
    assert p1 == k[..|p1|] == p2;
    assert n1 == k[|p1| + 1..] == n2;
  }

  lemma SizePathsSlashFree()
    ensures forall i :: 0 <= i < |Sizes| ==> '/' !in Sizes[i].path
  {
  }

  lemma SizePathsDistinct()
    ensures forall i, j :: 0 <= i < j < |Sizes| ==> Sizes[i].path != Sizes[j].path
  {
  }

  /** The four keys of one name are pairwise distinct, and none of them is a
      key of another name. */
  lemma VariantKeysInjective(n1: string, n2: string, i: nat, j: nat)
    requires i < |Sizes| && j < |Sizes|
    requires VariantKeys(n1)[i] == VariantKeys(n2)[j]
    ensures i == j && n1 == n2
  {
    SizePathsSlashFree();
    SizePathsDistinct();
    KeyOfInjective(Sizes[i].path, n1, Sizes[j].path, n2);
  }

  /** Strict lexicographic order on code points, the order in which the store
      lists keys (for Unicode scalar values it agrees with UTF-8 byte order). */
  predicate Below(a: string, b: string)
    decreases |a|
  {
    |b| > 0 && (|a| == 0 || a[0] < b[0] || (a[0] == b[0] && Below(a[1..], b[1..])))
  }

  lemma {:induction false} BelowIrreflexive(a: string)
    ensures !Below(a, a)
    decreases |a|
  {
    if |a| > 0 {
      BelowIrreflexive(a[1..]);
    }
  }

  lemma {:induction false} BelowTransitive(a: string, b: string, c: string)
    requires Below(a, b) && Below(b, c)
    ensures Below(a, c)
    decreases |a|
  {
    if |a| > 0 && a[0] == b[0] && b[0] == c[0] {
      BelowTransitive(a[1..], b[1..], c[1..]);
    }
  }

  lemma {:induction false} BelowTotal(a: string, b: string)
    requires a != b
    ensures Below(a, b) || Below(b, a)
    decreases |a|
  {
    if |a| > 0 && |b| > 0 && a[0] == b[0] {
      assert a == [a[0]] + a[1..] && b == [b[0]] + b[1..];
      BelowTotal(a[1..], b[1..]);
    }
  }

  /** Every non-empty finite set of keys has a least key. */
  lemma {:induction false} LeastKey(s: set<string>) returns (m: string)
    requires s != {}
    ensures m in s && forall x :: x in s && x != m ==> Below(m, x)
    decreases s
  {
    var x :| x in s;
    if s == {x} {
      m := x;
    } else {
      var m' := LeastKey(s - {x});
      if Below(x, m') {
        forall y | y in s && y != x
          ensures Below(x, y)
        {
          if y != m' {
            BelowTransitive(x, m', y);
          }
        }
        m := x;
      } else {
        BelowTotal(x, m');
        m := m';
      }
    }
  }

  /** `listObjectsV2` with a `Prefix`: every stored key that starts with
      `prefix` (a plain string prefix, not a path segment), each once, in
      ascending order. */
  method ListKeys(store: Store, prefix: string) returns (keys: seq<string>)
    ensures forall k :: k in keys <==> k in store && prefix <= k
    ensures forall i, j :: 0 <= i < j < |keys| ==> Below(keys[i], keys[j])
  {
    var pending := set k | k in store.Keys && prefix <= k;
    keys := [];
    while pending != {}
      invariant forall k :: k in keys || k in pending <==> k in store && prefix <= k
      invariant forall k :: k in keys ==> k !in pending
      invariant forall i, j :: 0 <= i < j < |keys| ==> Below(keys[i], keys[j])
      invariant forall i, x :: 0 <= i < |keys| && x in pending ==> Below(keys[i], x)
      decreases pending
    {
      ghost var least := LeastKey(pending);
      var m :| m in pending && forall x :: x in pending && x != m ==> Below(m, x);
      keys := keys + [m];
      pending := pending - {m};
    }
  }

  /** A strictly ascending listing never repeats a key. */
  lemma AscendingIsDistinct(keys: seq<string>, i: nat, j: nat)
    requires forall a, b :: 0 <= a < b < |keys| ==> Below(keys[a], keys[b])
    requires i < j < |keys|
    ensures keys[i] != keys[j]
  {
    BelowIrreflexive(keys[i]);
  }
}
