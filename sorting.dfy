/** SORT ... BY ... DESC over a set of keys, with ties left in an unspecified order. */
module Sorting {
  /** `x` is a member of `keys` whose weight no other member exceeds. */
  ghost predicate IsTop(keys: set<string>, weight: string -> int, x: string) {
    x in keys && forall y :: y in keys ==> weight(y) <= weight(x)
  }

  lemma {:induction false} TopExists(keys: set<string>, weight: string -> int)
    requires keys != {}
    ensures exists x :: IsTop(keys, weight, x)
    decreases keys
  {
    var z :| z in keys;
    if keys == {z} {
      assert IsTop(keys, weight, z);
    } else {
      TopExists(keys - {z}, weight);
      var x :| IsTop(keys - {z}, weight, x);
      if weight(z) > weight(x) {
        assert IsTop(keys, weight, z);
      } else {
        assert IsTop(keys, weight, x);
      }
    }
  }

  /** The members of `keys`, each once, heaviest first. Which of several equally heavy
      keys comes first is left open, but fixed for given arguments. */
  ghost function SortDescending(keys: set<string>, weight: string -> int): (r: seq<string>)
    ensures |r| == |keys|
    ensures forall k :: k in r <==> k in keys
    ensures forall i, j :: 0 <= i < j < |r| ==> r[i] != r[j]
    ensures forall i, j :: 0 <= i < j < |r| ==> weight(r[i]) >= weight(r[j])
    decreases keys
  {
    if keys == {} then []
    else
      TopExists(keys, weight);
      var x :| IsTop(keys, weight, x);
      [x] + SortDescending(keys - {x}, weight)
  }
}
