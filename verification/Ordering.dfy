/** The order of Rust's `String` (for UTF-8, byte order and scalar-value order agree) and
    `sort`. Sorting is what makes every artifact of the pipeline independent of the
    iteration order of hash maps. */
module Ordering {
  predicate Le(a: string, b: string) {
    a == "" || (b != "" && (a[0] < b[0] || (a[0] == b[0] && Le(a[1..], b[1..]))))
  }

  lemma {:induction false} LeTotal(a: string, b: string)
    ensures Le(a, b) || Le(b, a)
  {
    if a != "" && b != "" { LeTotal(a[1..], b[1..]); }
  }

  lemma {:induction false} LeAntisymmetric(a: string, b: string)
    requires Le(a, b) && Le(b, a)
    ensures a == b
  {
    if a != "" {
      LeAntisymmetric(a[1..], b[1..]);
      assert a == [a[0]] + a[1..] && b == [b[0]] + b[1..];
    }
  }

  lemma {:induction false} LeTransitive(a: string, b: string, c: string)
    requires Le(a, b) && Le(b, c)
    ensures Le(a, c)
  {
    if a != "" && a[0] == b[0] == c[0] { LeTransitive(a[1..], b[1..], c[1..]); }
  }

  /** Up to `n` the two are the same, and there the first ends or has the smaller character. */
  predicate DiffersFirstAt(a: string, b: string, n: nat) {
    n <= |a| && n <= |b| && (forall i | 0 <= i < n :: a[i] == b[i]) && (n == |a| || (n < |b| && a[n] < b[n]))
  }

  /** The order of texts: a text comes before those it begins, and else the first character
      that differs decides. */
  lemma {:induction false} LeIff(a: string, b: string)
    ensures Le(a, b) <==> exists n :: DiffersFirstAt(a, b, n)
  {
    if a == "" {
      assert DiffersFirstAt(a, b, 0);
    } else if b != "" {
      LeIff(a[1..], b[1..]);
      if a[0] < b[0] { assert DiffersFirstAt(a, b, 0); }
      if a[0] == b[0] {
        forall n: nat | DiffersFirstAt(a[1..], b[1..], n) ensures DiffersFirstAt(a, b, n + 1) {
          forall i | 0 <= i < n + 1 ensures a[i] == b[i] {
            if i > 0 { assert a[1..][i - 1] == b[1..][i - 1]; }
          }
        }
        forall n: nat | DiffersFirstAt(a, b, n) ensures n > 0 && DiffersFirstAt(a[1..], b[1..], n - 1) { }
      }
    }
  }

  predicate IsMin(m: string, bag: multiset<string>) {
    m in bag && forall x | x in bag :: Le(m, x)
  }

  lemma {:induction false} MinExists(bag: multiset<string>)
    requires |bag| > 0
    ensures exists m :: IsMin(m, bag)
  {
    var x :| x in bag;
    var rest := bag - multiset{x};
    LeTotal(x, x);
    if |rest| == 0 {
      assert bag == rest + multiset{x} && rest == multiset{};
      assert IsMin(x, bag);
    } else {
      MinExists(rest);
      var m :| IsMin(m, rest);
      LeTotal(x, m);
      var least := if Le(x, m) then x else m;
      forall y | y in bag ensures Le(least, y) {
        if y != x {
          assert y in rest;
          LeTransitive(least, m, y);
        }
      }
      assert IsMin(least, bag);
    }
  }

  function Min(bag: multiset<string>): (m: string)
    requires |bag| > 0
    ensures IsMin(m, bag)
  {
    MinExists(bag);
    assert forall a, b | IsMin(a, bag) && IsMin(b, bag) :: a == b by {
      forall a, b | IsMin(a, bag) && IsMin(b, bag) ensures a == b { LeAntisymmetric(a, b); }
    }
    var m :| m in bag && IsMin(m, bag);
    m
  }

  function Sort(bag: multiset<string>): (s: seq<string>)
    ensures multiset(s) == bag && |s| == |bag|
    decreases |bag|
  {
    if |bag| == 0 then [] else
      var m := Min(bag);
      [m] + Sort(bag - multiset{m})
  }

  predicate Sorted(s: seq<string>) {
    forall i, j | 0 <= i < j < |s| :: Le(s[i], s[j])
  }

  lemma SortedCons(m: string, rest: seq<string>)
    requires Sorted(rest) && forall x | x in multiset(rest) :: Le(m, x)
    ensures Sorted([m] + rest)
  {
    forall j | 0 <= j < |rest| ensures Le(m, rest[j]) { assert rest[j] in multiset(rest); }
  }

  lemma {:induction false} SortSorts(bag: multiset<string>)
    ensures Sorted(Sort(bag))
    decreases |bag|
  {
    if |bag| > 0 {
      var m := Min(bag);
      SortSorts(bag - multiset{m});
      SortedCons(m, Sort(bag - multiset{m}));
    }
  }

  /** Any sorted arrangement of a bag is `Sort` of it: iteration order cannot matter. */
  lemma {:induction false} SortUnique(s: seq<string>)
    requires Sorted(s)
    ensures Sort(multiset(s)) == s
  {
    if s != [] {
      var bag := multiset(s);
      assert s == [s[0]] + s[1..];
      var m := Min(bag);
      forall x | x in bag ensures Le(s[0], x) {
        LeTotal(x, x);
        var i :| 0 <= i < |s| && s[i] == x;
      }
      assert m in bag && s[0] in bag;
      LeAntisymmetric(m, s[0]);
      assert bag - multiset{m} == multiset(s[1..]);
      SortUnique(s[1..]);
    }
  }

  /** The keys of a map or set in sorted order, each once. */
  function Keys(s: set<string>): (r: seq<string>)
    ensures forall k :: k in r <==> k in s
    ensures |r| == |s| && multiset(r) == multiset(s)
  {
    var r := Sort(multiset(s));
    assert forall k :: k in r <==> k in multiset(r);
    r
  }

  /** Any sorted listing of a set is its `Keys`. */
  lemma KeysUnique(r: seq<string>, s: set<string>)
    requires Sorted(r) && multiset(r) == multiset(s)
    ensures Keys(s) == r
  {
    hide Sort, Sorted;
    SortUnique(r);
  }

  // ---------------------------------------------------------------- filling a map

  /** What a loop over `names` has put into a map after `i` rounds. */
  ghost function Filled<V>(whole: map<string, V>, names: seq<string>, i: nat): map<string, V>
    requires i <= |names|
  {
    map k | k in whole && k in names[..i] :: whole[k]
  }

  lemma FillNone<V>(whole: map<string, V>, names: seq<string>)
    ensures Filled(whole, names, 0) == map[]
  {
  }

  lemma FillStep<V>(whole: map<string, V>, names: seq<string>, i: nat)
    requires i < |names|
    ensures Filled(whole, names, i + 1) ==
            if names[i] in whole then Filled(whole, names, i)[names[i] := whole[names[i]]] else Filled(whole, names, i)
  {
    assert names[..i + 1] == names[..i] + [names[i]];
  }

  lemma FillAll<V>(whole: map<string, V>, names: seq<string>)
    requires forall k | k in whole :: k in names
    ensures Filled(whole, names, |names|) == whole
  {
    assert names[..|names|] == names;
  }
}
