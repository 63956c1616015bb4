/** Flattening a list of sequences. */
module Sequences {

  function Flatten<T>(lists: seq<seq<T>>): seq<T> {
    if lists == [] then [] else lists[0] + Flatten(lists[1..])
  }

  lemma Assoc<T>(a: seq<T>, b: seq<T>, c: seq<T>)
    ensures (a + b) + c == a + (b + c)
  {
  }

  lemma {:induction false} FlattenAppend<T>(a: seq<seq<T>>, b: seq<seq<T>>)
    ensures Flatten(a + b) == Flatten(a) + Flatten(b)
  {
    if a == [] {
      assert a + b == b;
    } else {
      assert (a + b)[1..] == a[1..] + b;
      FlattenAppend(a[1..], b);
      Assoc(a[0], Flatten(a[1..]), Flatten(b));
    }
  }

  lemma FlattenOne<T>(list: seq<T>)
    ensures Flatten([list]) == list
  {
    assert list + [] == list;
  }

  lemma FlattenSnoc<T>(lists: seq<seq<T>>, last: seq<T>)
    ensures Flatten(lists + [last]) == Flatten(lists) + last
  {
    FlattenAppend(lists, [last]);
    FlattenOne(last);
  }

  /** Flattening one list more of a prefix. */
  lemma FlattenNext<T>(lists: seq<seq<T>>, k: nat)
    requires k < |lists|
    ensures Flatten(lists[..k + 1]) == Flatten(lists[..k]) + lists[k]
  {
    assert lists[..k + 1] == lists[..k] + [lists[k]];
    FlattenSnoc(lists[..k], lists[k]);
  }
}
