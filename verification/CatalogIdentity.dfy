/** The bytes behind `catalog_hash`: a NUL-separated fold over the sorted plugin ids and
    their schema hashes. */
module CatalogIdentity {
  import opened Text
  import opened Ordering

  /** BLAKE3 followed by `to_hex`: some function of the bytes fed to it. */
  const BLAKE3_HEX: Bytes -> string

  function Leaf(id: string, hash: string): Bytes { Utf8(id) + [0] + Utf8(hash) + [0] }

  function LeavesOf(plugins: map<string, string>, ids: seq<string>): Bytes
    requires forall id | id in ids :: id in plugins
  {
    if ids == [] then [] else Leaf(ids[0], plugins[ids[0]]) + LeavesOf(plugins, ids[1..])
  }

  /** What the hasher is fed: a function of the id-to-hash map alone. */
  function Leaves(plugins: map<string, string>): Bytes {
    LeavesOf(plugins, Keys(plugins.Keys))
  }

  function CatalogHash(plugins: map<string, string>): string { BLAKE3_HEX(Leaves(plugins)) }

  /** The hasher after the leaves of `ids` have been fed to it as well. */
  function Fed(before: Bytes, plugins: map<string, string>, ids: seq<string>): Bytes
    requires forall id | id in ids :: id in plugins
    decreases |ids|
  {
    if ids == [] then before else Fed(before + Leaf(ids[0], plugins[ids[0]]), plugins, ids[1..])
  }

  lemma {:induction false} FedIsAppended(before: Bytes, plugins: map<string, string>, ids: seq<string>)
    requires forall id | id in ids :: id in plugins
    ensures Fed(before, plugins, ids) == before + LeavesOf(plugins, ids)
    decreases |ids|
  {
    if ids != [] {
      var leaf := Leaf(ids[0], plugins[ids[0]]);
      FedIsAppended(before + leaf, plugins, ids[1..]);
      hide Leaf;
      assert (before + leaf) + LeavesOf(plugins, ids[1..]) == before + (leaf + LeavesOf(plugins, ids[1..]));
    }
  }

  /** The hasher loop, over the leaves in whatever order the hash map yields them. */
  method HashCatalog(plugins: map<string, string>, order: seq<string>) returns (h: string)
    requires multiset(order) == multiset(plugins.Keys)
    ensures h == CatalogHash(plugins)
  {
    hide Leaf, Sort;
    var sorted := Sort(multiset(order));
    assert sorted == Keys(plugins.Keys);
    var fed: Bytes := [];
    assert sorted[0..] == sorted;
    for i := 0 to |sorted|
      invariant Fed(fed, plugins, sorted[i..]) == Fed([], plugins, sorted)
    {
      assert sorted[i..][1..] == sorted[i + 1..];
      fed := fed + Leaf(sorted[i], plugins[sorted[i]]);
    }
    FedIsAppended([], plugins, sorted);
    assert [] + Leaves(plugins) == Leaves(plugins);
    h := BLAKE3_HEX(fed);
  }

  predicate NulFree(plugins: map<string, string>) {
    forall id | id in plugins :: '\0' !in id && '\0' !in plugins[id]
  }

  /** NUL-terminated pieces without NUL are cut off in one way only. */
  lemma CutAtNul(a: Bytes, x: Bytes, b: Bytes, y: Bytes)
    requires 0 !in a && 0 !in b && a + [0] + x == b + [0] + y
    ensures a == b && x == y
  {
    var s := a + [0] + x;
    assert s[|a|] == 0 && s[|b|] == 0;
    assert forall k | 0 <= k < |a| :: s[k] == a[k];
    assert forall k | 0 <= k < |b| :: s[k] == b[k];
    assert |a| == |b|;
    assert a == s[..|a|] && b == s[..|b|];
    assert x == s[|a| + 1..] && y == s[|b| + 1..];
  }

  lemma Utf8IsInjective(s: string, t: string)
    requires Utf8(s) == Utf8(t)
    ensures s == t
  {
    Utf8RoundTrip(s);
    Utf8RoundTrip(t);
  }

  lemma Regroup(a: Bytes, b: Bytes, x: Bytes)
    ensures a + [0] + b + [0] + x == a + [0] + (b + [0] + x)
  {
  }

  lemma LeafIsCutOff(id: string, hash: string, x: Bytes, id': string, hash': string, y: Bytes)
    requires '\0' !in id && '\0' !in hash && '\0' !in id' && '\0' !in hash'
    requires Leaf(id, hash) + x == Leaf(id', hash') + y
    ensures id == id' && hash == hash' && x == y
  {
    Utf8NulFree(id);
    Utf8NulFree(hash);
    Utf8NulFree(id');
    Utf8NulFree(hash');
    var a, b, a', b' := Utf8(id), Utf8(hash), Utf8(id'), Utf8(hash');
    hide Utf8;
    Regroup(a, b, x);
    Regroup(a', b', y);
    CutAtNul(a, b + [0] + x, a', b' + [0] + y);
    CutAtNul(b, x, b', y);
    Utf8IsInjective(id, id');
    Utf8IsInjective(hash, hash');
  }

  lemma {:induction false} LeavesDetermine(p: map<string, string>, ids: seq<string>, q: map<string, string>,
                                           ids': seq<string>)
    requires NulFree(p) && NulFree(q)
    requires (forall id | id in ids :: id in p) && forall id | id in ids' :: id in q
    requires LeavesOf(p, ids) == LeavesOf(q, ids')
    ensures ids == ids' && forall id | id in ids :: p[id] == q[id]
    decreases |ids|
  {
    hide Leaf;
    LeafIsNotEmpty();
    if ids != [] && ids' != [] {
      LeafIsCutOff(ids[0], p[ids[0]], LeavesOf(p, ids[1..]), ids'[0], q[ids'[0]], LeavesOf(q, ids'[1..]));
      LeavesDetermine(p, ids[1..], q, ids'[1..]);
      assert ids == [ids[0]] + ids[1..] && ids' == [ids'[0]] + ids'[1..];
    }
  }

  lemma LeafIsNotEmpty()
    ensures forall id, hash :: |Leaf(id, hash)| >= 2
  {
  }

  /** For NUL-free names the hashed bytes determine the whole catalog. */
  lemma CatalogBytesDetermine(p: map<string, string>, q: map<string, string>)
    requires NulFree(p) && NulFree(q)
    ensures Leaves(p) == Leaves(q) <==> p == q
  {
    hide LeavesOf, NulFree, Keys;
    if Leaves(p) == Leaves(q) {
      LeavesDetermine(p, Keys(p.Keys), q, Keys(q.Keys));
      SameKeysSameMap(p, q);
    }
  }

  lemma SameKeysSameMap(p: map<string, string>, q: map<string, string>)
    requires Keys(p.Keys) == Keys(q.Keys) && forall id | id in Keys(p.Keys) :: id in p && id in q && p[id] == q[id]
    ensures p == q
  {
    hide Keys;
    forall id ensures (id in p <==> id in q) && (id in p ==> p[id] == q[id]) {
      assert id in Keys(p.Keys) <==> id in p.Keys;
      assert id in Keys(q.Keys) <==> id in q.Keys;
    }
  }

  lemma KeysOfPair(x: string, y: string)
    requires x != y && Le(x, y)
    ensures Keys({x}) == [x] && Keys({x, y}) == [x, y]
  {
    hide Keys, Le;
    assert Sorted([x]) && Sorted([x, y]);
    hide Sorted;
    assert multiset([x]) == multiset({x});
    KeysUnique([x], {x});
    assert multiset([x, y]) == multiset({x, y});
    KeysUnique([x, y], {x, y});
  }

  /** A NUL inside a hash breaks that: these two catalogs feed the hasher the same bytes. */
  lemma NulConfuses(x: string, y: string, g: string, h: string)
    requires x != y && Le(x, y)
    ensures
      var p, q := map[x := g + "\0" + y + "\0" + h], map[x := g, y := h];
      p != q && Leaves(p) == Leaves(q)
  {
    var p, q := map[x := g + "\0" + y + "\0" + h], map[x := g, y := h];
    KeysOfPair(x, y);
    assert p.Keys == {x} && q.Keys == {x, y};
    assert y in q.Keys && y !in p.Keys;
    hide Keys, Le, Leaf;
    LeavesOfOne(p, x);
    LeavesOfTwo(q, x, y);
    LeafWithNul(x, y, g, h);
  }

  lemma NulSeparated(g: string, y: string, h: string)
    ensures Utf8(g + "\0" + y + "\0" + h) == Utf8(g) + [0] + Utf8(y) + [0] + Utf8(h)
  {
    assert Utf8("\0") == [0];
    hide Utf8;
    Utf8Append(g, "\0");
    Utf8Append(g + "\0", y);
    Utf8Append(g + "\0" + y, "\0");
    Utf8Append(g + "\0" + y + "\0", h);
  }

  lemma RegroupLeaves(x: Bytes, g: Bytes, y: Bytes, h: Bytes)
    ensures x + [0] + (g + [0] + y + [0] + h) + [0] == (x + [0] + g + [0]) + (y + [0] + h + [0])
  {
  }

  lemma LeafWithNul(x: string, y: string, g: string, h: string)
    ensures Leaf(x, g + "\0" + y + "\0" + h) == Leaf(x, g) + Leaf(y, h)
  {
    hide Utf8;
    NulSeparated(g, y, h);
    RegroupLeaves(Utf8(x), Utf8(g), Utf8(y), Utf8(h));
  }

  lemma LeavesOfOne(p: map<string, string>, x: string)
    requires x in p
    ensures LeavesOf(p, [x]) == Leaf(x, p[x])
  {
    hide Leaf;
    assert [x][1..] == [];
  }

  lemma LeavesOfTwo(q: map<string, string>, x: string, y: string)
    requires x in q && y in q
    ensures LeavesOf(q, [x, y]) == Leaf(x, q[x]) + Leaf(y, q[y])
  {
    hide Leaf;
    assert [x, y][1..] == [y];
    LeavesOfOne(q, y);
  }
}
