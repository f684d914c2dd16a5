/** Sequence operations shared by several widgets: flattening, membership through it, and prefixes. */
module Lists {

  /** The lists one after another (`[].concat(...lists)`, `flat()`). */
  function Flatten<X>(lists: seq<seq<X>>): seq<X> {
    if lists == [] then [] else lists[0] + Flatten(lists[1..])
  }

  lemma FlattenCons<X>(x: seq<X>, lists: seq<seq<X>>)
    ensures Flatten([x] + lists) == x + Flatten(lists)
  {
    assert ([x] + lists)[1..] == lists;
  }

  /** Every list reaches the flattened result whole. */
  lemma {:induction false} FlattenKeeps<X>(lists: seq<seq<X>>, i: nat)
    requires i < |lists|
    ensures multiset(lists[i]) <= multiset(Flatten(lists))
  {
    assert multiset(Flatten(lists)) == multiset(lists[0]) + multiset(Flatten(lists[1..]));
    if i > 0 {
      FlattenKeeps(lists[1..], i - 1);
      assert lists[1..][i - 1] == lists[i];
    }
  }

  /** Everything in the flattened result comes from one of the lists. */
  lemma {:induction false} FlattenMember<X>(lists: seq<seq<X>>, x: X) returns (i: nat)
    requires x in Flatten(lists)
    ensures i < |lists| && x in lists[i]
  {
    if x in lists[0] {
      i := 0;
    } else {
      var j := FlattenMember(lists[1..], x);
      assert lists[1..][j] == lists[j + 1];
      i := j + 1;
    }
  }

  /** The length of the flattened result is the sum of the lengths. */
  function TotalLength<X>(lists: seq<seq<X>>): nat {
    if lists == [] then 0 else |lists[0]| + TotalLength(lists[1..])
  }

  lemma {:induction false} FlattenLength<X>(lists: seq<seq<X>>)
    ensures |Flatten(lists)| == TotalLength(lists)
  {
    if lists != [] {
      FlattenLength(lists[1..]);
    }
  }

  /** The first `n` elements, or all of them when there are fewer (`slice(0, n)`). */
  function Take<X>(s: seq<X>, n: nat): (r: seq<X>)
    ensures |r| <= n && |r| <= |s| && r == s[..|r|]
    ensures |s| <= n ==> r == s
  {
    if |s| <= n then s else s[..n]
  }
}
