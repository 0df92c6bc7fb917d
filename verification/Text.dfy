/**
 Strings in the order the ordered collections keep them, and scans of a sorted
 set by prefix. `p <= s` is Dafny's "p is a prefix of s".
 */
module Text {
  import opened Common

  /** How a package's own file ends. */
  const INIT: string := "/__init__.py"

  predicate EndsWith(s: string, t: string) {
    |t| <= |s| && s[|s| - |t|..] == t
  }

  /** Where `rsplit_once('/')` splits. */
  function LastSlash(s: string): Option<nat>
    ensures LastSlash(s).Some? ==>
      && LastSlash(s).value < |s| && s[LastSlash(s).value] == '/'
      && forall k :: LastSlash(s).value < k < |s| ==> s[k] != '/'
    ensures LastSlash(s).None? ==> forall k :: 0 <= k < |s| ==> s[k] != '/'
  {
    if s == [] then None
    else if s[|s| - 1] == '/' then Some(|s| - 1)
    else LastSlash(s[..|s| - 1])
  }

  /** Lexicographic order by code point, which is Rust's order on UTF-8. */
  predicate Less(a: string, b: string) {
    if b == [] then false
    else if a == [] then true
    else a[0] < b[0] || (a[0] == b[0] && Less(a[1..], b[1..]))
  }

  /** Where two strings first part decides: the smaller character comes first, or
      the end. */
  lemma {:induction false} LessAtFirstDifference(a: string, b: string)
    ensures Less(a, b) <==> exists k :: PartsAt(a, b, k)
  {
    if a != [] && b != [] && a[0] == b[0] {
      LessAtFirstDifference(a[1..], b[1..]);
      if k :| PartsAt(a[1..], b[1..], k) {
        assert a == [a[0]] + a[1..] && b == [b[0]] + b[1..];
        assert a[..k + 1] == [a[0]] + a[1..][..k] && b[..k + 1] == [b[0]] + b[1..][..k];
        assert PartsAt(a, b, k + 1);
      }
      if k :| PartsAt(a, b, k) {
        assert a[1..][..k - 1] == a[..k][1..] && b[1..][..k - 1] == b[..k][1..];
        assert PartsAt(a[1..], b[1..], k - 1);
      }
    } else if Less(a, b) {
      assert a[..0] == b[..0];
      assert PartsAt(a, b, 0);
    }
  }

  /** The two agree up to `k`, where `a` ends or has the smaller character. */
  ghost predicate PartsAt(a: string, b: string, k: int) {
    && 0 <= k <= |a| && k < |b| && a[..k] == b[..k]
    && (k == |a| || a[k] as int < b[k] as int)
  }

  lemma {:induction false} LessIsIrreflexive(a: string)
    ensures !Less(a, a)
  {
    if a != [] {
      LessIsIrreflexive(a[1..]);
    }
  }

  lemma {:induction false} LessIsTransitive(a: string, b: string, c: string)
    requires Less(a, b) && Less(b, c)
    ensures Less(a, c)
  {
    if a != [] && a[0] == b[0] && b[0] == c[0] {
      LessIsTransitive(a[1..], b[1..], c[1..]);
    }
  }

  lemma {:induction false} LessIsTotal(a: string, b: string)
    ensures Less(a, b) || a == b || Less(b, a)
  {
    if a != [] && b != [] {
      LessIsTotal(a[1..], b[1..]);
      assert a == [a[0]] + a[1..] && b == [b[0]] + b[1..];
    }
  }

  lemma NotLessIsTransitive(a: string, b: string, c: string)
    requires !Less(a, b) && !Less(b, c)
    ensures !Less(a, c)
  {
    LessIsTotal(a, b);
    if Less(a, c) && Less(b, a) {
      LessIsTransitive(b, a, c);
    }
  }

  lemma LessIsAsymmetric(a: string, b: string)
    ensures !(Less(a, b) && Less(b, a))
  {
    if Less(a, b) && Less(b, a) {
      LessIsTransitive(a, b, a);
      LessIsIrreflexive(a);
    }
  }

  /** The strings starting with `p` are an interval that begins at `p`. */
  lemma {:induction false} PrefixInterval(p: string, a: string, b: string)
    requires p <= b && !Less(a, p) && (a == b || Less(a, b))
    ensures p <= a
  {
    if p != [] {
      PrefixInterval(p[1..], a[1..], b[1..]);
      assert p == [p[0]] + p[1..] && a == [a[0]] + a[1..];
    }
  }

  lemma {:induction false} PrefixIsNotAbove(p: string, s: string)
    requires p <= s
    ensures !Less(s, p)
  {
    if p != [] {
      PrefixIsNotAbove(p[1..], s[1..]);
    }
  }

  // ------------------------------------------------------------ sorted sets

  /** An ordered set in iteration order. */
  ghost predicate Ascending(xs: seq<string>) {
    forall i, j :: 0 <= i < j < |xs| ==> Less(xs[i], xs[j])
  }

  /** Insertion into an ordered set. */
  function Insert(xs: seq<string>, x: string): seq<string> {
    if xs == [] then [x]
    else if x == xs[0] then xs
    else if Less(x, xs[0]) then [x] + xs
    else [xs[0]] + Insert(xs[1..], x)
  }

  lemma {:induction false} InsertMembers(xs: seq<string>, x: string)
    ensures forall y :: y in Insert(xs, x) <==> y in xs || y == x
  {
    if xs != [] {
      InsertMembers(xs[1..], x);
      assert xs == [xs[0]] + xs[1..];
    }
  }

  lemma {:induction false} InsertKeepsAscending(xs: seq<string>, x: string)
    requires Ascending(xs)
    ensures Ascending(Insert(xs, x))
  {
    if xs == [] || x == xs[0] {
    } else if Less(x, xs[0]) {
      forall j | 0 <= j < |xs| ensures Less(x, xs[j]) {
        if j > 0 {
          LessIsTransitive(x, xs[0], xs[j]);
        }
      }
    } else {
      LessIsTotal(x, xs[0]);
      InsertKeepsAscending(xs[1..], x);
      InsertMembers(xs[1..], x);
      var rest := Insert(xs[1..], x);
      forall j | 0 <= j < |rest| ensures Less(xs[0], rest[j]) {
        assert rest[j] in rest;
      }
    }
  }

  /** Collecting into an ordered set. */
  function SortedSet(xs: seq<string>): seq<string> {
    if xs == [] then [] else Insert(SortedSet(xs[1..]), xs[0])
  }

  lemma {:induction false} SortedSetIsTheSet(xs: seq<string>)
    ensures Ascending(SortedSet(xs))
    ensures forall y :: y in SortedSet(xs) <==> y in xs
  {
    if xs != [] {
      SortedSetIsTheSet(xs[1..]);
      InsertMembers(SortedSet(xs[1..]), xs[0]);
      InsertKeepsAscending(SortedSet(xs[1..]), xs[0]);
      assert xs == [xs[0]] + xs[1..];
    }
  }

  /** An ascending sequence is determined by its elements. */
  lemma {:induction false} AscendingIsCanonical(xs: seq<string>, ys: seq<string>)
    requires Ascending(xs) && Ascending(ys)
    requires forall z :: z in xs <==> z in ys
    ensures xs == ys
  {
    assert ys == [] || ys[0] in ys;
    if xs != [] {
      assert xs[0] in xs && xs[0] in ys;
      assert ys != [];
      assert ys[0] in ys && ys[0] in xs;
      SmallestFirst(xs, ys[0]);
      SmallestFirst(ys, xs[0]);
      if Less(xs[0], ys[0]) && Less(ys[0], xs[0]) {
        LessIsTransitive(xs[0], ys[0], xs[0]);
        LessIsIrreflexive(xs[0]);
      }
      assert xs[0] == ys[0];
      TailMembers(xs);
      TailMembers(ys);
      AscendingIsCanonical(xs[1..], ys[1..]);
      assert xs == [xs[0]] + xs[1..] && ys == [ys[0]] + ys[1..];
    }
  }

  lemma SmallestFirst(xs: seq<string>, x: string)
    requires Ascending(xs) && x in xs
    ensures x == xs[0] || Less(xs[0], x)
  {
  }

  lemma TailMembers(xs: seq<string>)
    requires Ascending(xs) && xs != []
    ensures forall z :: z in xs[1..] <==> z in xs && z != xs[0]
  {
    LessIsIrreflexive(xs[0]);
    assert xs == [xs[0]] + xs[1..];
  }

  // ------------------------------------------------------------ range scans

  /** `range(from..)` */
  function RangeFrom(xs: seq<string>, from: string): seq<string> {
    if xs == [] then []
    else if Less(xs[0], from) then RangeFrom(xs[1..], from)
    else xs
  }

  /** `take_while(|x| x.starts_with(p))` */
  function TakePrefixed(xs: seq<string>, p: string): seq<string> {
    if xs == [] || !(p <= xs[0]) then [] else [xs[0]] + TakePrefixed(xs[1..], p)
  }

  /** The plain filter the scan stands for. */
  function WithPrefix(xs: seq<string>, p: string): seq<string> {
    if xs == [] then []
    else (if p <= xs[0] then [xs[0]] else []) + WithPrefix(xs[1..], p)
  }

  lemma {:induction false} WithPrefixMembers(xs: seq<string>, p: string)
    ensures forall x :: x in WithPrefix(xs, p) <==> x in xs && p <= x
  {
    if xs != [] {
      WithPrefixMembers(xs[1..], p);
      assert xs == [xs[0]] + xs[1..];
    }
  }

  lemma {:induction false} TakenFromStart(xs: seq<string>, p: string)
    requires Ascending(xs) && (xs == [] || !Less(xs[0], p))
    ensures TakePrefixed(xs, p) == WithPrefix(xs, p)
  {
    if xs != [] {
      if |xs| > 1 {
        NotBelowCarries(p, xs[0], xs[1]);
      }
      TakenFromStart(xs[1..], p);
      if !(p <= xs[0]) {
        var rest := WithPrefix(xs[1..], p);
        assert rest == [] || rest[0] in rest;
        WithPrefixMembers(xs[1..], p);
        forall x | x in xs[1..] ensures !(p <= x) {
          if p <= x {
            PrefixInterval(p, xs[0], x);
          }
        }
      }
    }
  }

  lemma NotBelowCarries(p: string, a: string, b: string)
    requires !Less(a, p) && Less(a, b)
    ensures !Less(b, p)
  {
    if Less(b, p) {
      LessIsTransitive(a, b, p);
    }
  }

  /** Scanning the sorted set from `p` while `p` is a prefix yields exactly the
      elements that start with `p`, in order. */
  lemma {:induction false} ScanIsFilter(xs: seq<string>, p: string)
    requires Ascending(xs)
    ensures TakePrefixed(RangeFrom(xs, p), p) == WithPrefix(xs, p)
  {
    if xs != [] {
      if Less(xs[0], p) {
        if p <= xs[0] {
          PrefixIsNotAbove(p, xs[0]);
        }
        ScanIsFilter(xs[1..], p);
      } else {
        TakenFromStart(xs, p);
      }
    }
  }

  /** The first element at or after `p` starts with `p` exactly when any does. */
  lemma ProbeIsExists(xs: seq<string>, p: string)
    requires Ascending(xs)
    ensures (RangeFrom(xs, p) != [] && p <= RangeFrom(xs, p)[0]) <==> exists x :: x in xs && p <= x
  {
    ScanIsFilter(xs, p);
    WithPrefixMembers(xs, p);
    var taken := TakePrefixed(RangeFrom(xs, p), p);
    if taken != [] {
      assert taken[0] in WithPrefix(xs, p);
    }
  }
}
