/**
 * The records the servers keep (network/server.py, server.py and
 * game/enemy.py) and the Python containers that hold them.
 *
 * Players and objects live in dicts that are only looked up, so they are
 * maps. The attack handler takes the FIRST enemy in the dict's iteration
 * order, so enemies live in a Dict that keeps the insertion order of its
 * keys as Python's dict does. Connections are a list of sockets, which
 * `list.remove` edits by first occurrence.
 */
module Registry {
  import opened Wrappers
  import opened Basics

  /** A player or an enemy: the dict {"x", "y", "char", "hp"}. */
  datatype Actor = Actor(x: int, y: int, glyph: char, hp: int)

  /** A world object: the dict {"x", "y", "char", "type"}. */
  datatype Thing = Thing(x: int, y: int, glyph: char, kind: string)

  predicate At(a: Actor, x: int, y: int) {
    a.x == x && a.y == y
  }

  /** A dict keyed by strings, with its keys in insertion order. */
  datatype Dict<V> = Dict(keys: seq<string>, entries: map<string, V>)

  predicate Distinct(s: seq<string>) {
    forall i, j :: 0 <= i < j < |s| ==> s[i] != s[j]
  }

  /** Every key appears once in the order, and the order lists exactly the stored keys. */
  predicate Valid<V>(d: Dict<V>) {
    && Distinct(d.keys)
    && (forall k :: k in d.entries ==> k in d.keys)
    && (forall k :: k in d.keys ==> k in d.entries)
  }

  /** `d[k] = v`: a present key keeps its place, a new key goes last. */
  function Put<V>(d: Dict<V>, k: string, v: V): (r: Dict<V>)
    requires Valid(d)
    ensures Valid(r)
    ensures r.entries == d.entries[k := v]
    ensures k in d.entries ==> r.keys == d.keys
    ensures k !in d.entries ==> r.keys == d.keys + [k]
  {
    if k in d.entries then Dict(d.keys, d.entries[k := v]) else Dict(d.keys + [k], d.entries[k := v])
  }

  /** The keys of s other than k, in their order. */
  function Without(s: seq<string>, k: string): (r: seq<string>)
    ensures forall m :: m in r <==> m in s && m != k
    ensures |r| <= |s|
  {
    if s == [] then []
    else if s[|s| - 1] == k then Without(s[..|s| - 1], k)
    else Without(s[..|s| - 1], k) + [s[|s| - 1]]
  }

  lemma {:induction false} WithoutDistinct(s: seq<string>, k: string)
    requires Distinct(s)
    ensures Distinct(Without(s, k))
  {
    if s != [] {
      WithoutDistinct(s[..|s| - 1], k);
      assert s[|s| - 1] !in s[..|s| - 1];
    }
  }

  /** Without an absent key is the identity. */
  lemma {:induction false} WithoutAbsent(s: seq<string>, k: string)
    requires k !in s
    ensures Without(s, k) == s
  {
    if s != [] {
      assert k !in s[..|s| - 1];
      WithoutAbsent(s[..|s| - 1], k);
      assert s[..|s| - 1] + [s[|s| - 1]] == s;
    }
  }

  /** In a list without repeats, Without cuts out the one position holding k. */
  lemma {:induction false} WithoutIsDeletion(s: seq<string>, k: string, i: nat)
    requires Distinct(s) && i < |s| && s[i] == k
    ensures Without(s, k) == s[..i] + s[i + 1..]
  {
    var last := |s| - 1;
    if i == last {
      assert k !in s[..last];
      WithoutAbsent(s[..last], k);
      assert s[i + 1..] == [];
    } else {
      WithoutIsDeletion(s[..last], k, i);
      assert s[..last][..i] == s[..i];
      assert s[..last][i + 1..] + [s[last]] == s[i + 1..];
    }
  }

  /**
   * `del d[k]`: k leaves and the other entries stay; deleting an absent key
   * changes nothing. RemoveKeepsOrder states what happens to the order.
   */
  function Remove<V>(d: Dict<V>, k: string): (r: Dict<V>)
    requires Valid(d)
    ensures Valid(r)
    ensures r.entries == d.entries - {k}
    ensures k !in d.entries ==> r == d
  {
    WithoutDistinct(d.keys, k);
    if k !in d.keys then
      WithoutAbsent(d.keys, k);
      assert d.entries - {k} == d.entries;
      Dict(Without(d.keys, k), d.entries - {k})
    else
      Dict(Without(d.keys, k), d.entries - {k})
  }

  /**
   * `del d[k]` cuts k out of the order at its position i, so the other keys
   * keep their relative order.
   */
  lemma RemoveKeepsOrder<V>(d: Dict<V>, k: string, i: nat)
    requires Valid(d) && i < |d.keys| && d.keys[i] == k
    ensures Remove(d, k).keys == d.keys[..i] + d.keys[i + 1..]
  {
    WithoutIsDeletion(d.keys, k, i);
  }

  /**
   * The position of the first key, from position i on, whose actor stands
   * at (x, y); |keys| when there is none.
   */
  function FirstIndexAt(keys: seq<string>, entries: map<string, Actor>, x: int, y: int, i: nat): (j: nat)
    requires forall k :: k in keys ==> k in entries
    requires i <= |keys|
    ensures i <= j <= |keys|
    ensures j < |keys| ==> At(entries[keys[j]], x, y)
    ensures forall m :: i <= m < j ==> !At(entries[keys[m]], x, y)
    decreases |keys| - i
  {
    if i == |keys| || At(entries[keys[i]], x, y) then i else FirstIndexAt(keys, entries, x, y, i + 1)
  }

  /** The first entry of d, in iteration order, that stands at (x, y). */
  function FirstAt(d: Dict<Actor>, x: int, y: int): (r: Option<string>)
    requires Valid(d)
    ensures r.None? <==> forall k :: k in d.entries ==> !At(d.entries[k], x, y)
    ensures r.Some? ==> r.value in d.entries && At(d.entries[r.value], x, y)
    ensures r.Some? ==> forall i, j :: 0 <= i < j < |d.keys| && d.keys[j] == r.value ==> !At(d.entries[d.keys[i]], x, y)
  {
    var j := FirstIndexAt(d.keys, d.entries, x, y, 0);
    if j < |d.keys| then
      assert forall i :: 0 <= i < |d.keys| && d.keys[i] == d.keys[j] ==> i == j;
      Some(d.keys[j])
    else
      assert forall k :: k in d.entries ==> exists i :: 0 <= i < |d.keys| && d.keys[i] == k;
      None
  }

  /** A connection, identified by the socket object it stands for. */
  type Socket = nat

  /**
   * `if c in s: s.remove(c)`: drops one occurrence of c, if any;
   * RemoveFirstIsFirst shows it is the first.
   */
  function RemoveFirst(s: seq<Socket>, c: Socket): (r: seq<Socket>)
    ensures c !in s ==> r == s
    ensures multiset(r) == multiset(s) - multiset{c}
  {
    if c in s then
      var i := IndexOf(s, c);
      assert s == s[..i] + [c] + s[i + 1..];
      s[..i] + s[i + 1..]
    else
      s
  }

  /** The connections whose send succeeded, in their order: what pruning should leave. */
  function Delivered(s: seq<Socket>, ok: Socket -> bool): (r: seq<Socket>)
    ensures forall c :: c in r ==> ok(c)
    ensures forall c :: multiset(r)[c] == if ok(c) then multiset(s)[c] else 0
  {
    if s == [] then []
    else
      var r := Delivered(s[..|s| - 1], ok) + if ok(s[|s| - 1]) then [s[|s| - 1]] else [];
      assert s == s[..|s| - 1] + [s[|s| - 1]];
      r
  }

  /**
   * `list.remove` drops the first occurrence: when position i holds c and
   * no earlier position does, exactly position i is cut out.
   */
  lemma RemoveFirstIsFirst(s: seq<Socket>, c: Socket, i: nat)
    requires i < |s| && s[i] == c && c !in s[..i]
    ensures RemoveFirst(s, c) == s[..i] + s[i + 1..]
  {
    IndexOfIs(s, c, i);
  }

  /** Removing the first occurrence of c skips a prefix that does not hold c. */
  lemma RemoveFirstAfter(a: seq<Socket>, b: seq<Socket>, c: Socket)
    requires c !in a && |b| > 0 && b[0] == c
    ensures RemoveFirst(a + b, c) == a + b[1..]
  {
    assert (a + b)[..|a|] == a;
    RemoveFirstIsFirst(a + b, c, |a|);
    assert (a + b)[|a| + 1..] == b[1..];
  }

  /** One step of the pruning walk: the connection at position i is kept or dropped. */
  lemma PruneStep(copy: seq<Socket>, i: nat, sendOk: Socket -> bool)
    requires i < |copy|
    ensures var before := Delivered(copy[..i], sendOk) + copy[i..];
            (if sendOk(copy[i]) then before else RemoveFirst(before, copy[i]))
            == Delivered(copy[..i + 1], sendOk) + copy[i + 1..]
  {
    assert copy[..i + 1][..i] == copy[..i];
    assert copy[..i + 1] == copy[..i] + [copy[i]];
    var d := Delivered(copy[..i], sendOk);
    if sendOk(copy[i]) {
      assert d + copy[i..] == (d + [copy[i]]) + copy[i + 1..];
    } else {
      RemoveFirstAfter(d, copy[i..], copy[i]);
      assert copy[i..][1..] == copy[i + 1..];
    }
  }

  /**
   * broadcast_state's pruning: walk a copy of the list and remove each
   * connection whose send failed. The result is exactly the delivered
   * connections in their original order.
   */
  method PruneFailed(connections: seq<Socket>, sendOk: Socket -> bool) returns (kept: seq<Socket>)
    ensures kept == Delivered(connections, sendOk)
  {
    var copy := connections;
    kept := connections;
    for i := 0 to |copy|
      invariant kept == Delivered(copy[..i], sendOk) + copy[i..]
    {
      var conn := copy[i];
      PruneStep(copy, i, sendOk);
      if !sendOk(conn) {
        if conn in kept {
          kept := RemoveFirst(kept, conn);
        }
      }
    }
    assert copy[..|copy|] == copy;
  }
}
