/**
 What several components share: optional values and lists of them, the smaller of two
 numbers, and regrouping of lists.
 */
module Common {

  datatype Option<+T> = None | Some(value: T)

  function Min(a: int, b: int): int {
    if a < b then a else b
  }

  lemma Reassociate<T>(a: seq<T>, b: seq<T>, c: seq<T>)
    ensures (a + b) + c == a + (b + c)
  {
  }

  /** The values of a list of options. */
  function Somes<T>(xs: seq<Option<T>>): seq<T> {
    if xs == [] then []
    else if xs[0].Some? then [xs[0].value] + Somes(xs[1..])
    else Somes(xs[1..])
  }

  lemma SomesUnfold<T>(x: Option<T>, rest: seq<Option<T>>)
    ensures Somes([x] + rest) == if x.Some? then [x.value] + Somes(rest) else Somes(rest)
  {
    assert ([x] + rest)[1..] == rest;
  }

  lemma {:induction false} SomesMembers<T>(xs: seq<Option<T>>, x: T)
    ensures x in Somes(xs) <==> Some(x) in xs
  {
    if xs != [] {
      SomesMembers(xs[1..], x);
      assert xs == [xs[0]] + xs[1..];
    }
  }

  /** The value at `k` of a list of options, found among its values. */
  lemma {:induction false} SomesHas<T>(xs: seq<Option<T>>, k: nat) returns (i: nat)
    requires k < |xs| && xs[k].Some?
    ensures i < |Somes(xs)| && Somes(xs)[i] == xs[k].value
  {
    if k == 0 {
      i := 0;
    } else {
      i := SomesHas(xs[1..], k - 1);
      i := if xs[0].Some? then i + 1 else i;
    }
  }

  lemma {:induction false} SomesFrom<T>(xs: seq<Option<T>>, i: nat) returns (k: nat)
    requires i < |Somes(xs)|
    ensures k < |xs| && xs[k] == Some(Somes(xs)[i])
  {
    if xs[0].Some? && i == 0 {
      k := 0;
    } else {
      k := SomesFrom(xs[1..], if xs[0].Some? then i - 1 else i);
      k := k + 1;
    }
  }

  /** Two values come from two places, in order. */
  lemma {:induction false} SomesPair<T>(xs: seq<Option<T>>, i: nat, j: nat) returns (k: nat, l: nat)
    requires i < j < |Somes(xs)|
    ensures k < l < |xs| && xs[k] == Some(Somes(xs)[i]) && xs[l] == Some(Somes(xs)[j])
  {
    if xs[0].Some? && i == 0 {
      k := 0;
      l := SomesFrom(xs[1..], j - 1);
      l := l + 1;
    } else {
      var shift := if xs[0].Some? then 1 else 0;
      k, l := SomesPair(xs[1..], i - shift, j - shift);
      k, l := k + 1, l + 1;
    }
  }

  lemma {:induction false} SomesOfPair<T>(xs: seq<Option<T>>, k: nat, l: nat) returns (i: nat, j: nat)
    requires k < l < |xs| && xs[k].Some? && xs[l].Some?
    ensures i < j < |Somes(xs)| && Somes(xs)[i] == xs[k].value && Somes(xs)[j] == xs[l].value
  {
    if k == 0 {
      i := 0;
      j := SomesHas(xs[1..], l - 1);
      j := j + 1;
    } else {
      i, j := SomesOfPair(xs[1..], k - 1, l - 1);
      if xs[0].Some? {
        i, j := i + 1, j + 1;
      }
    }
  }
}
