/** The loop shared by the list validators: check every entry on its own and reject an entry whose
    key was met before. */
module SeenMap {
  import opened Text

  /** What the loop decides, without the loop: every entry is valid alone and keys never repeat. */
  ghost predicate Accepts<T, K, E>(items: seq<T>, check: T -> Result<K, E>) {
    && (forall i | 0 <= i < |items| :: check(items[i]).Ok?)
    && (forall i, j | 0 <= i < j < |items| :: check(items[i]) != check(items[j]))
  }

  /** Accepts exactly the lists that satisfy Accepts; a rejection names the first offending entry,
      either for its own fault or as a duplicate. */
  method CheckEntries<T, K(==), E>(items: seq<T>, check: T -> Result<K, E>, duplicate: E) returns (r: Option<E>)
    ensures r.None? <==> Accepts(items, check)
    ensures r.Some? ==>
              exists i | 0 <= i < |items| ::
                && Accepts(items[..i], check)
                && (check(items[i]) == Err(r.value)
                    || (r.value == duplicate && exists j | 0 <= j < i :: check(items[j]) == check(items[i])))
  {
    var seen: set<K> := {};
    for i := 0 to |items|
      invariant Accepts(items[..i], check)
      invariant forall j | 0 <= j < i :: check(items[j]).Ok? && check(items[j]).value in seen
      invariant forall k | k in seen :: exists j | 0 <= j < i :: check(items[j]) == Ok(k)
    {
      var c := check(items[i]);
      if c.Err? {
        return Some(c.error);
      }
      if c.value in seen {
        ghost var j :| 0 <= j < i && check(items[j]) == Ok(c.value);
        return Some(duplicate);
      }
      seen := seen + {c.value};
    }
    assert items[..|items|] == items;
    return None;
  }

  // ------------------------------------------------------------------ order and deletion

  /** An element that occurs twice occurs at two places. */
  lemma {:induction false} TwoPlaces<T>(xs: seq<T>, x: T) returns (i: nat, j: nat)
    requires multiset(xs)[x] >= 2
    ensures i < j < |xs| && xs[i] == xs[j] == x
  {
    assert xs == [xs[0]] + xs[1..];
    if xs[0] == x {
      assert x in xs[1..];
      var k :| 0 <= k < |xs[1..]| && xs[1..][k] == x;
      i, j := 0, k + 1;
    } else {
      i, j := TwoPlaces(xs[1..], x);
      i, j := i + 1, j + 1;
    }
  }

  lemma {:induction false} PlacesCount<T>(xs: seq<T>, i: nat, j: nat)
    requires i < j < |xs| && xs[i] == xs[j]
    ensures multiset(xs)[xs[i]] >= 2
  {
    assert xs == xs[..j] + [xs[j]] + xs[j + 1..];
    assert xs[..j][i] in multiset(xs[..j]);
  }

  /** A list made of entries of an accepted list, none used more often, is accepted: so neither the
      order of the entries nor deleting some of them matters. */
  lemma FewerEntriesAccepted<T, K, E>(xs: seq<T>, ys: seq<T>, check: T -> Result<K, E>)
    requires Accepts(xs, check) && multiset(ys) <= multiset(xs)
    ensures Accepts(ys, check)
  {
    forall i | 0 <= i < |ys| ensures check(ys[i]).Ok? && ys[i] in xs {
      assert ys[i] in multiset(ys);
    }
    forall i, j | 0 <= i < j < |ys| ensures check(ys[i]) != check(ys[j]) {
      if ys[i] == ys[j] {
        PlacesCount(ys, i, j);
        var a, b := TwoPlaces(xs, ys[i]);
      } else {
        var a :| 0 <= a < |xs| && xs[a] == ys[i];
        var b :| 0 <= b < |xs| && xs[b] == ys[j];
      }
    }
  }

  lemma OrderIrrelevant<T, K, E>(xs: seq<T>, ys: seq<T>, check: T -> Result<K, E>)
    requires multiset(xs) == multiset(ys)
    ensures Accepts(xs, check) <==> Accepts(ys, check)
  {
    if Accepts(xs, check) { FewerEntriesAccepted(xs, ys, check); }
    if Accepts(ys, check) { FewerEntriesAccepted(ys, xs, check); }
  }
}
