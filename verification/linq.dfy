/**
 * The two LINQ operators whose failure and counting behaviour the handlers
 * and validators depend on: `ToDictionary`, which raises on a repeated key,
 * and `Distinct().Count()`, which the duplicate-product rule compares with
 * the plain count.
 */
module Linq {
  import opened Common

  /** No two elements share a key. */
  ghost predicate DistinctKeys<T>(xs: seq<T>, key: T -> Guid) {
    forall i, j :: 0 <= i < j < |xs| ==> key(xs[i]) != key(xs[j])
  }

  /** The keys of the elements, as a set. */
  function KeySet<T>(xs: seq<T>, key: T -> Guid): (r: set<Guid>)
    ensures forall i :: 0 <= i < |xs| ==> key(xs[i]) in r
    ensures forall k :: k in r ==> exists i :: 0 <= i < |xs| && key(xs[i]) == k
  {
    set i | 0 <= i < |xs| :: key(xs[i])
  }

  /** A sequence has distinct keys when its prefix has and the last key is
      new. */
  lemma DistinctKeysSnoc<T>(xs: seq<T>, key: T -> Guid)
    requires |xs| > 0
    ensures DistinctKeys(xs, key) <==>
            DistinctKeys(xs[..|xs| - 1], key) && key(xs[|xs| - 1]) !in KeySet(xs[..|xs| - 1], key)
  {
    var n := |xs| - 1;
    var pre := xs[..n];
    assert forall i :: 0 <= i < n ==> pre[i] == xs[i];
  }

  /** `Enumerable.ToDictionary(key)`: elements are inserted in order, and the
      first element whose key is already present raises. */
  function ToDictionary<T>(xs: seq<T>, key: T -> Guid): (r: Result<map<Guid, T>>)
    ensures r.Ok? <==> DistinctKeys(xs, key)
    ensures r.Ok? ==> r.value.Keys == KeySet(xs, key)
    ensures r.Ok? ==> forall i :: 0 <= i < |xs| ==> r.value[key(xs[i])] == xs[i]
    ensures r.Err? ==> (r.error.DuplicateKey? &&
                        exists i, j :: 0 <= i < j < |xs| && key(xs[i]) == key(xs[j]) == r.error.key)
  {
    if |xs| == 0 then Ok(map[])
    else
      var n := |xs| - 1;
      var pre := xs[..n];
      DistinctKeysSnoc(xs, key);
      match ToDictionary(pre, key)
      case Err(e) =>
        DuplicateInPrefix(xs, key, e.key);
        Err(e)
      case Ok(m) =>
        if key(xs[n]) in m then
          DuplicateOfLast(xs, key, m);
          Err(DuplicateKey(key(xs[n])))
        else
          DictionarySnoc(xs, key, m);
          Ok(m[key(xs[n]) := xs[n]])
  }

  /** A repeated key among the first elements is repeated in the whole
      sequence. */
  lemma DuplicateInPrefix<T>(xs: seq<T>, key: T -> Guid, k: Guid)
    requires |xs| > 0
    requires var pre := xs[..|xs| - 1];
             exists i, j :: 0 <= i < j < |pre| && key(pre[i]) == key(pre[j]) == k
    ensures exists i, j :: 0 <= i < j < |xs| && key(xs[i]) == key(xs[j]) == k
  {
    var pre := xs[..|xs| - 1];
    var i, j :| 0 <= i < j < |pre| && key(pre[i]) == key(pre[j]) == k;
    assert pre[i] == xs[i] && pre[j] == xs[j];
  }

  /** The last key, already in the dictionary built from the others, is a
      repeat. */
  lemma DuplicateOfLast<T>(xs: seq<T>, key: T -> Guid, m: map<Guid, T>)
    requires |xs| > 0 && m.Keys == KeySet(xs[..|xs| - 1], key) && key(xs[|xs| - 1]) in m
    ensures exists i, j :: 0 <= i < j < |xs| && key(xs[i]) == key(xs[j]) == key(xs[|xs| - 1])
  {
    var n := |xs| - 1;
    var pre := xs[..n];
    var i :| 0 <= i < |pre| && key(pre[i]) == key(xs[n]);
    assert pre[i] == xs[i];
  }

  /** Inserting the last element under a new key extends the dictionary of
      the others to the dictionary of all. */
  lemma DictionarySnoc<T>(xs: seq<T>, key: T -> Guid, m: map<Guid, T>)
    requires |xs| > 0
    requires var pre := xs[..|xs| - 1];
             && m.Keys == KeySet(pre, key)
             && (forall i :: 0 <= i < |pre| ==> m[key(pre[i])] == pre[i])
             && key(xs[|xs| - 1]) !in m
    ensures var r := m[key(xs[|xs| - 1]) := xs[|xs| - 1]];
            && r.Keys == KeySet(xs, key)
            && forall i :: 0 <= i < |xs| ==> r[key(xs[i])] == xs[i]
  {
    var n := |xs| - 1;
    var pre := xs[..n];
    assert forall i :: 0 <= i < n ==> pre[i] == xs[i];
    assert KeySet(xs, key) == KeySet(pre, key) + {key(xs[n])};
  }

  /** `Enumerable.Distinct`: every value of `xs`, each exactly once. */
  function Distinct(xs: seq<Guid>): (r: seq<Guid>)
    ensures |r| <= |xs|
    ensures forall i, j :: 0 <= i < j < |r| ==> r[i] != r[j]
    ensures forall x :: x in r <==> x in xs
  {
    if |xs| == 0 then []
    else
      var n := |xs| - 1;
      var d := Distinct(xs[..n]);
      assert forall x :: x in xs <==> x in xs[..n] || x == xs[n];
      if xs[n] in d then d else d + [xs[n]]
  }

  ghost predicate NoDuplicates(xs: seq<Guid>) {
    forall i, j :: 0 <= i < j < |xs| ==> xs[i] != xs[j]
  }

  /** `ids.Distinct().Count() == ids.Count()` holds exactly when no value
      repeats: the duplicate-product rule rejects precisely the lists with a
      repeated product id. */
  lemma {:induction false} DistinctCountIff(xs: seq<Guid>)
    ensures |Distinct(xs)| == |xs| <==> NoDuplicates(xs)
    decreases |xs|
  {
    if |xs| > 0 {
      var n := |xs| - 1;
      var pre := xs[..n];
      DistinctCountIff(pre);
      if NoDuplicates(xs) {
        assert NoDuplicates(pre) by {
          forall i, j | 0 <= i < j < n ensures pre[i] != pre[j] {
            assert pre[i] == xs[i] && pre[j] == xs[j];
          }
        }
        assert xs[n] !in pre by {
          forall i | 0 <= i < n ensures pre[i] != xs[n] {
            assert pre[i] == xs[i];
          }
        }
      } else if NoDuplicates(pre) {
        var i, j :| 0 <= i < j < |xs| && xs[i] == xs[j];
        if j == n {
          assert pre[i] == xs[n];
        }
      }
    }
  }

  /** `Select`: the projection of every element, in order. */
  function Select<A, B>(xs: seq<A>, f: A -> B): (r: seq<B>)
    ensures |r| == |xs| && forall i :: 0 <= i < |xs| ==> r[i] == f(xs[i])
  {
    seq(|xs|, i requires 0 <= i < |xs| => f(xs[i]))
  }
}
