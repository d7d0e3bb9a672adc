/** Collections as the document store sees them: an ordered sequence of
    documents (the store's natural order) that is queried by a key.

    `FirstIndex` is `findOne(filter)`, `Upsert` is `findOneAndUpdate(filter,
    update, { upsert: true })`, `Without` is `deleteMany(filter)` and
    `DeleteFirst` is `findByIdAndDelete`. The key function extracts the fields
    the filter compares. */
module Keyed {
  import opened Wrappers

  /** The index of the first document whose key is `k`, if any. */
  function FirstIndex<T, K(==)>(xs: seq<T>, key: T -> K, k: K): (r: Option<nat>)
    ensures r.Some? ==> r.value < |xs| && key(xs[r.value]) == k
    ensures r.Some? ==> forall j :: 0 <= j < r.value ==> key(xs[j]) != k
    ensures r.None? <==> forall j :: 0 <= j < |xs| ==> key(xs[j]) != k
    decreases |xs|
  {
    if |xs| == 0 then None
    else if key(xs[0]) == k then Some(0)
    else match FirstIndex(xs[1..], key, k)
      case None => None
      case Some(i) => Some(i + 1)
  }

  /** The position an upsert on key `k` writes to: the first match, or the end. */
  function Slot<T, K(==)>(xs: seq<T>, key: T -> K, k: K): (r: nat)
    ensures r <= |xs|
    ensures r < |xs| <==> FirstIndex(xs, key, k).Some?
  {
    match FirstIndex(xs, key, k)
    case Some(i) => i
    case None => |xs|
  }

  /** The set of keys present in the collection. */
  ghost function KeySet<T, K>(xs: seq<T>, key: T -> K): set<K> {
    set x | x in xs :: key(x)
  }

  /** No two documents share a key: the effect of a unique index on the key. */
  ghost predicate UniqueKeys<T, K>(xs: seq<T>, key: T -> K) {
    forall i, j :: 0 <= i < j < |xs| ==> key(xs[i]) != key(xs[j])
  }

  /** Update-or-insert: the first document whose key is `k` is replaced by
      `update` of it; when there is none, `create` is appended. */
  function Upsert<T(!new), K(==)>(xs: seq<T>, key: T -> K, k: K, update: T -> T, create: T): (r: seq<T>)
    requires key(create) == k
    requires forall x :: key(x) == k ==> key(update(x)) == k
    ensures var s := Slot(xs, key, k);
      && |r| == (if s < |xs| then |xs| else |xs| + 1)
      && FirstIndex(r, key, k) == Some(s)
      && r[s] == (if s < |xs| then update(xs[s]) else create)
      && (forall j :: 0 <= j < |xs| && j != s ==> r[j] == xs[j])
    ensures KeySet(r, key) == KeySet(xs, key) + {k}
    ensures UniqueKeys(xs, key) ==> UniqueKeys(r, key)
  {
    match FirstIndex(xs, key, k)
    case Some(i) =>
      var r := xs[i := update(xs[i])];
      assert forall j :: 0 <= j < |r| ==> key(r[j]) == key(xs[j]);
      assert forall x :: x in r ==> key(x) in KeySet(xs, key);
      assert forall y :: y in KeySet(xs, key) ==> y in KeySet(r, key) by {
        forall y | y in KeySet(xs, key) ensures y in KeySet(r, key) {
          var x :| x in xs && key(x) == y;
          var j :| 0 <= j < |xs| && xs[j] == x;
          assert key(r[j]) == y;
        }
      }
      r
    case None =>
      var r := xs + [create];
      assert r[|xs|] == create;
      r
  }

  /** An upsert on key `k` leaves the lookup of every other key unchanged. */
  lemma UpsertOtherKey<T(!new), K>(xs: seq<T>, key: T -> K, k: K, update: T -> T, create: T, k': K)
    requires key(create) == k
    requires forall x :: key(x) == k ==> key(update(x)) == k
    requires k' != k
    ensures var r := Upsert(xs, key, k, update, create);
      && FirstIndex(r, key, k') == FirstIndex(xs, key, k')
      && (FirstIndex(xs, key, k').Some? ==> r[FirstIndex(xs, key, k').value] == xs[FirstIndex(xs, key, k').value])
  {
    var r := Upsert(xs, key, k, update, create);
    var s := Slot(xs, key, k);
    assert forall j :: 0 <= j < |r| ==> (key(r[j]) == k' <==> j < |xs| && key(xs[j]) == k') by {
      forall j | 0 <= j < |r| ensures key(r[j]) == k' <==> j < |xs| && key(xs[j]) == k' {
        if j == s {
          assert key(r[j]) == k;
          if j < |xs| { assert key(xs[j]) == k; }
        }
      }
    }
    match FirstIndex(xs, key, k')
    case None =>
      assert FirstIndex(r, key, k').None?;
    case Some(i) =>
      assert i != s;
      assert FirstIndex(r, key, k') == Some(i);
  }

  /** Repeating an upsert whose update is idempotent changes nothing. */
  lemma UpsertIdempotent<T(!new), K>(xs: seq<T>, key: T -> K, k: K, update: T -> T, create: T)
    requires key(create) == k
    requires forall x :: key(x) == k ==> key(update(x)) == k
    requires forall x :: key(x) == k ==> update(update(x)) == update(x)
    requires update(create) == create
    ensures var r := Upsert(xs, key, k, update, create);
      Upsert(r, key, k, update, create) == r
  {
    var r := Upsert(xs, key, k, update, create);
    var s := Slot(xs, key, k);
    assert Slot(r, key, k) == s;
    assert update(r[s]) == r[s];
  }

  /** The documents whose key differs from `k`, in order. */
  function Without<T, K(==)>(xs: seq<T>, key: T -> K, k: K): (r: seq<T>)
    ensures |r| <= |xs|
    ensures forall j | 0 <= j < |r| :: key(r[j]) != k
    decreases |xs|
  {
    if |xs| == 0 then []
    else
      var rest := Without(xs[1..], key, k);
      if key(xs[0]) == k then rest else [xs[0]] + rest
  }

  /** `Without` keeps exactly the documents whose key differs from `k`. */
  lemma {:induction false} WithoutMembers<T, K>(xs: seq<T>, key: T -> K, k: K)
    ensures forall x | x in Without(xs, key, k) :: x in xs && key(x) != k
    ensures forall x | x in xs && key(x) != k :: x in Without(xs, key, k)
    decreases |xs|
  {
    if |xs| > 0 {
      WithoutMembers(xs[1..], key, k);
      assert forall x :: x in xs <==> x == xs[0] || x in xs[1..];
    }
  }

  /** `Without` keeps whatever other key was unique unique: it only drops documents. */
  lemma {:induction false} WithoutKeepsUnique<T, K, L>(xs: seq<T>, key: T -> K, k: K, other: T -> L)
    ensures UniqueKeys(xs, other) ==> UniqueKeys(Without(xs, key, k), other)
    decreases |xs|
  {
    if |xs| > 0 && UniqueKeys(xs, other) {
      var tail := xs[1..];
      assert UniqueKeys(tail, other) by {
        forall i, j | 0 <= i < j < |tail| ensures other(tail[i]) != other(tail[j]) {
          assert tail[i] == xs[i + 1] && tail[j] == xs[j + 1];
        }
      }
      WithoutKeepsUnique(tail, key, k, other);
      if key(xs[0]) != k {
        var rest := Without(tail, key, k);
        WithoutMembers(tail, key, k);
        var r := [xs[0]] + rest;
        forall i, j | 0 <= i < j < |r| ensures other(r[i]) != other(r[j]) {
          if i == 0 {
            var y := rest[j - 1];
            assert y in Without(tail, key, k);
            assert y in tail && key(y) != k;
            var m :| 0 <= m < |tail| && tail[m] == y;
            assert tail[m] == xs[m + 1];
            assert r[j] == y;
          } else {
            assert r[i] == rest[i - 1] && r[j] == rest[j - 1];
          }
        }
      }
    }
  }

  /** Removes the first document whose key is `k`; nothing when there is none. */
  function DeleteFirst<T(!new), K(==)>(xs: seq<T>, key: T -> K, k: K): (r: seq<T>)
    ensures FirstIndex(xs, key, k).None? ==> r == xs
    ensures UniqueKeys(xs, key) ==> r == Without(xs, key, k)
  {
    match FirstIndex(xs, key, k)
    case None =>
      NoKeyWithout(xs, key, k);
      xs
    case Some(i) =>
      UniqueWithoutAt(xs, key, k, i);
      xs[..i] + xs[i + 1..]
  }

  /** Under unique keys, removing every document with key `k` is removing the one at its index. */
  lemma UniqueWithoutAt<T(!new), K>(xs: seq<T>, key: T -> K, k: K, i: nat)
    requires i < |xs| && key(xs[i]) == k
    ensures UniqueKeys(xs, key) ==> Without(xs, key, k) == xs[..i] + xs[i + 1..]
  {
    if UniqueKeys(xs, key) {
      WithoutSingle(xs, key, k, i);
    }
  }

  /** When only position `i` carries key `k`, removing every `k` removes exactly position `i`. */
  lemma {:induction false} WithoutSingle<T(!new), K>(xs: seq<T>, key: T -> K, k: K, i: nat)
    requires i < |xs| && key(xs[i]) == k
    requires forall j :: 0 <= j < |xs| && j != i ==> key(xs[j]) != k
    ensures Without(xs, key, k) == xs[..i] + xs[i + 1..]
    decreases |xs|
  {
    var tail := xs[1..];
    if i == 0 {
      NoKeyWithout(tail, key, k);
      calc {
        Without(xs, key, k);
        Without(tail, key, k);
        tail;
        xs[..0] + xs[1..];
      }
    } else {
      WithoutSingle(tail, key, k, i - 1);
      assert tail[..i - 1] == xs[1..i];
      assert tail[i..] == xs[i + 1..];
      assert xs[..i] == [xs[0]] + xs[1..i];
      calc {
        Without(xs, key, k);
        [xs[0]] + Without(tail, key, k);
        [xs[0]] + (xs[1..i] + xs[i + 1..]);
        xs[..i] + xs[i + 1..];
      }
    }
  }

  /** Without a match, `Without` keeps the whole sequence. */
  lemma {:induction false} NoKeyWithout<T(!new), K>(xs: seq<T>, key: T -> K, k: K)
    requires forall j :: 0 <= j < |xs| ==> key(xs[j]) != k
    ensures Without(xs, key, k) == xs
    decreases |xs|
  {
    if |xs| > 0 {
      NoKeyWithout(xs[1..], key, k);
      assert [xs[0]] + xs[1..] == xs;
    }
  }
}
